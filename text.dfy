/**
 The two string primitives of Go that the bot's decisions depend on:
 `strings.Fields`, which splits a message into its words, and `len` on a
 string, which counts UTF-8 bytes rather than characters. A Dafny `string`
 holds Unicode scalar values, which is what a decoded chat message or tweet
 text is.
 */
module Text {

  /** The ASCII white space that `strings.Fields` looks up in its fast path. */
  const AsciiSpace := "\t\n\U{000B}\U{000C}\r "

  /**
   Go's `unicode.IsSpace`: the Unicode White_Space characters. Below 0x80 it
   agrees with the ASCII table above.
   */
  predicate IsSpace(c: char)
    ensures c as int < 0x80 ==> (IsSpace(c) <==> c in AsciiSpace)
  {
    || ('\t' <= c <= '\r')
    || c == ' '
    || c == '\U{0085}'
    || c == '\U{00A0}'
    || c == '\U{1680}'
    || ('\U{2000}' <= c <= '\U{200A}')
    || c == '\U{2028}'
    || c == '\U{2029}'
    || c == '\U{202F}'
    || c == '\U{205F}'
    || c == '\U{3000}'
  }

  /** A field as `strings.Fields` yields it: non-empty, without white space. */
  predicate IsWord(w: string)
  {
    |w| > 0 && forall i :: 0 <= i < |w| ==> !IsSpace(w[i])
  }

  predicate AllSpace(s: string)
  {
    forall i :: 0 <= i < |s| ==> IsSpace(s[i])
  }

  /** Length of the longest prefix of `s` that holds no white space. */
  function WordEnd(s: string): (n: nat)
    ensures n <= |s|
    ensures forall i :: 0 <= i < n ==> !IsSpace(s[i])
    ensures n < |s| ==> IsSpace(s[n])
  {
    if |s| == 0 || IsSpace(s[0]) then 0 else 1 + WordEnd(s[1..])
  }

  /** `strings.Fields`: the maximal runs of non-white-space characters, in order. */
  function Fields(s: string): (r: seq<string>)
    ensures forall i :: 0 <= i < |r| ==> IsWord(r[i])
    decreases |s|
  {
    if |s| == 0 then []
    else if IsSpace(s[0]) then Fields(s[1..])
    else
      var n := WordEnd(s);
      [s[..n]] + Fields(s[n..])
  }

  /** A message has no fields exactly when it is made of white space only. */
  lemma {:induction false} FieldsEmptyIff(s: string)
    ensures Fields(s) == [] <==> AllSpace(s)
    decreases |s|
  {
    if |s| > 0 && IsSpace(s[0]) {
      FieldsEmptyIff(s[1..]);
      if AllSpace(s[1..]) {
        forall i | 0 <= i < |s| ensures IsSpace(s[i]) {
          if i > 0 { assert s[i] == s[1..][i - 1]; }
        }
      } else {
        var j :| 0 <= j < |s[1..]| && !IsSpace(s[1..][j]);
        assert !IsSpace(s[j + 1]);
      }
    }
  }

  lemma {:induction false} WordEndAppend(a: string, b: string)
    requires b == [] || IsSpace(b[0])
    ensures WordEnd(a + b) == WordEnd(a)
    decreases |a|
  {
    if |a| > 0 && !IsSpace(a[0]) {
      assert (a + b)[1..] == a[1..] + b;
      WordEndAppend(a[1..], b);
    }
  }

  /** Splitting at a white-space boundary: fields of the parts, concatenated. */
  lemma {:induction false} FieldsAppend(a: string, b: string)
    requires b == [] || IsSpace(b[0])
    ensures Fields(a + b) == Fields(a) + Fields(b)
    decreases |a|
  {
    if |a| == 0 {
      assert a + b == b;
    } else if IsSpace(a[0]) {
      assert (a + b)[1..] == a[1..] + b;
      FieldsAppend(a[1..], b);
    } else {
      var ab := a + b;
      var n := WordEnd(a);
      assert n >= 1 by { assert !IsSpace(a[0]); }
      WordEndAppend(a, b);
      assert ab[0] == a[0];
      assert ab[..n] == a[..n];
      assert ab[n..] == a[n..] + b;
      FieldsAppend(a[n..], b);
      calc {
        Fields(ab);
        [ab[..n]] + Fields(ab[n..]);
        [a[..n]] + (Fields(a[n..]) + Fields(b));
        ([a[..n]] + Fields(a[n..])) + Fields(b);
        Fields(a) + Fields(b);
      }
    }
  }

  /** A single word splits to itself. */
  lemma FieldsOfWord(w: string)
    requires IsWord(w)
    ensures Fields(w) == [w]
  {
    var n := WordEnd(w);
    assert n == |w|;
    assert w[..n] == w;
    assert w[n..] == [];
  }

  /** Leading white space contributes no field. */
  lemma {:induction false} FieldsAfterSpace(a: string, b: string)
    requires AllSpace(a)
    ensures Fields(a + b) == Fields(b)
    decreases |a|
  {
    if |a| > 0 {
      assert (a + b)[0] == a[0];
      assert (a + b)[1..] == a[1..] + b;
      assert AllSpace(a[1..]) by {
        forall i | 0 <= i < |a[1..]| ensures IsSpace(a[1..][i]) { assert a[1..][i] == a[i + 1]; }
      }
      FieldsAfterSpace(a[1..], b);
    } else {
      assert a + b == b;
    }
  }

  /** Bytes in the UTF-8 encoding of one character. */
  function RuneLen(c: char): (n: nat)
    ensures 1 <= n <= 4
    ensures c as int < 0x80 <==> n == 1
  {
    if c as int < 0x80 then 1
    else if c as int < 0x800 then 2
    else if c as int < 0x10000 then 3
    else 4
  }

  /** Go's `len` on a string: the length of its UTF-8 encoding in bytes. */
  function Utf8Len(s: string): (n: nat)
    ensures |s| <= n <= 4 * |s|
    decreases |s|
  {
    if |s| == 0 then 0 else RuneLen(s[0]) + Utf8Len(s[1..])
  }

  /** The byte length of a concatenation is the sum of the byte lengths. */
  lemma {:induction false} Utf8LenAppend(a: string, b: string)
    ensures Utf8Len(a + b) == Utf8Len(a) + Utf8Len(b)
    decreases |a|
  {
    if |a| == 0 {
      assert a + b == b;
    } else {
      assert (a + b)[0] == a[0];
      assert (a + b)[1..] == a[1..] + b;
      Utf8LenAppend(a[1..], b);
    }
  }

  /** On ASCII text, byte length and character count agree. */
  lemma {:induction false} Utf8LenAscii(s: string)
    requires forall i :: 0 <= i < |s| ==> s[i] as int < 0x80
    ensures Utf8Len(s) == |s|
    decreases |s|
  {
    if |s| > 0 {
      Utf8LenAscii(s[1..]);
    }
  }
}
