/**
 The in-memory configuration store (`MapRepo` in data.go): a table from
 guild ID to the ID of the channel that receives relayed posts.

 A Go `map` is a reference: two variables can name the same table, and a write
 through one is seen through the other. `Table` models such a map as a heap
 object, so that "the snapshot is a fresh copy" is a statement about objects.
 The reader/writer lock around each method is not modelled: every method is
 treated as one atomic step.
 */
module Store {
  import opened Wrappers

  /** `v, ok := m[k]` on a map value: Some(value) when k is present, None otherwise. */
  function Get(m: map<string, string>, k: string): Option<string>
  {
    if k in m then Some(m[k]) else None
  }

  /** A Go `map[string]string`: a mutable table shared by reference. */
  class Table {
    var entries: map<string, string>

    /** `make(map[string]string)` */
    constructor ()
      ensures entries == map[]
    {
      entries := map[];
    }

    /** `m[k] = v` */
    method Assign(k: string, v: string)
      modifies this
      ensures entries == old(entries)[k := v]
    {
      entries := entries[k := v];
    }

    /** `delete(m, k)`: deleting an absent key does nothing. */
    method Delete(k: string)
      modifies this
      ensures entries == old(entries) - {k}
    {
      entries := entries - {k};
    }

    /** `v, ok := m[k]`: an absent key yields the zero value "" and ok == false. */
    method Lookup(k: string) returns (v: string, ok: bool)
      ensures (if ok then Some(v) else None) == Get(entries, k)
      ensures !ok ==> v == ""
    {
      if k in entries {
        v, ok := entries[k], true;
      } else {
        v, ok := "", false;
      }
    }
  }

  /** `MapRepo`: the store keeps one table for its whole life. */
  class MapRepo {
    const channels: Table

    /** The guild -> channel mapping the store currently holds. */
    function Contents(): map<string, string>
      reads channels
    {
      channels.entries
    }

    /** `NewMapRepo`: a store with no configured guild. */
    constructor ()
      ensures fresh(channels)
      ensures Contents() == map[]
    {
      channels := new Table();
    }

    /** Insert or overwrite the guild's channel; never fails. */
    method SetKirbChannel(guildID: string, channelID: string) returns (err: Option<StoreError>)
      modifies channels
      ensures err == None
      ensures Contents() == Apply(old(Contents()), Set(guildID, channelID))
      ensures guildID in Contents() && Contents()[guildID] == channelID
      ensures forall g :: g != guildID ==> Get(Contents(), g) == Get(old(Contents()), g)
    {
      channels.Assign(guildID, channelID);
      err := None;
    }

    /** Delete the guild's entry; deleting an absent guild also succeeds. */
    method RemoveKirbChannel(guildID: string) returns (err: Option<StoreError>)
      modifies channels
      ensures err == None
      ensures Contents() == Apply(old(Contents()), Remove(guildID))
      ensures guildID !in Contents()
      ensures forall g :: g != guildID ==> Get(Contents(), g) == Get(old(Contents()), g)
      ensures guildID !in old(Contents()) ==> Contents() == old(Contents())
    {
      channels.Delete(guildID);
      err := None;
    }

    /**
     Copy the table entry by entry into a newly made map. The copy is a fresh
     object, so nothing a caller later writes into it reaches the store.
     */
    method GetKirbChannels() returns (snapshot: Table, err: Option<StoreError>)
      ensures fresh(snapshot)
      ensures snapshot.entries == Contents()
      ensures err == None
    {
      snapshot := new Table();
      var pending := channels.entries.Keys;
      while pending != {}
        invariant fresh(snapshot)
        invariant pending <= channels.entries.Keys
        invariant snapshot.entries.Keys == channels.entries.Keys - pending
        invariant forall k :: k in snapshot.entries ==> snapshot.entries[k] == channels.entries[k]
        decreases pending
      {
        var k :| k in pending;
        snapshot.Assign(k, channels.entries[k]);
        pending := pending - {k};
      }
      err := None;
    }
  }

  /** Writing into a snapshot leaves the store as it was. */
  method EditSnapshot(repo: MapRepo, guildID: string, channelID: string) returns (snapshot: Table)
    ensures fresh(snapshot)
    ensures snapshot.entries == repo.Contents()[guildID := channelID]
    ensures repo.Contents() == old(repo.Contents())
  {
    var err;
    snapshot, err := repo.GetKirbChannels();
    snapshot.Assign(guildID, channelID);
  }

  /** One committed change to the store. */
  datatype Mutation = Set(guild: string, channel: string) | Remove(guild: string)

  /** The table after one mutation: what `SetKirbChannel`/`RemoveKirbChannel` do to it. */
  function Apply(t: map<string, string>, op: Mutation): (r: map<string, string>)
    ensures Get(r, op.guild) == if op.Set? then Some(op.channel) else None
    ensures forall g :: g != op.guild ==> Get(r, g) == Get(t, g)
  {
    match op
    case Set(g, c) => t[g := c]
    case Remove(g) => t - {g}
  }

  /** The table after a sequence of mutations, applied in call order. */
  function ApplyAll(t: map<string, string>, ops: seq<Mutation>): map<string, string>
    decreases |ops|
  {
    if ops == [] then t else ApplyAll(Apply(t, ops[0]), ops[1..])
  }

  /**
   Reference definition of the net effect on one guild: the LAST mutation that
   names the guild decides; if none does, the initial table does.
   */
  function LastWrite(t: map<string, string>, ops: seq<Mutation>, g: string): Option<string>
    decreases |ops|
  {
    if ops == [] then Get(t, g)
    else
      var last := ops[|ops| - 1];
      if last.guild == g then
        (if last.Set? then Some(last.channel) else None)
      else LastWrite(t, ops[..|ops| - 1], g)
  }

  lemma {:induction false} ApplyAllSnoc(t: map<string, string>, ops: seq<Mutation>, op: Mutation)
    ensures ApplyAll(t, ops + [op]) == Apply(ApplyAll(t, ops), op)
    decreases |ops|
  {
    if ops == [] {
      assert ops + [op] == [op];
    } else {
      assert (ops + [op])[1..] == ops[1..] + [op];
      ApplyAllSnoc(Apply(t, ops[0]), ops[1..], op);
    }
  }

  /** Any sequence of sets and removes leaves each guild as its last mutation says (last writer wins). */
  lemma {:induction false} NetEffect(t: map<string, string>, ops: seq<Mutation>, g: string)
    ensures Get(ApplyAll(t, ops), g) == LastWrite(t, ops, g)
    decreases |ops|
  {
    if ops != [] {
      var init, last := ops[..|ops| - 1], ops[|ops| - 1];
      assert ops == init + [last];
      ApplyAllSnoc(t, init, last);
      NetEffect(t, init, g);
    }
  }

  /** Setting the same pair twice has the effect of setting it once. */
  lemma {:induction false} SetIdempotent(t: map<string, string>, ops: seq<Mutation>, g: string, c: string)
    ensures ApplyAll(t, ops + [Set(g, c), Set(g, c)]) == ApplyAll(t, ops + [Set(g, c)])
  {
    assert ops + [Set(g, c), Set(g, c)] == (ops + [Set(g, c)]) + [Set(g, c)];
    ApplyAllSnoc(t, ops + [Set(g, c)], Set(g, c));
    ApplyAllSnoc(t, ops, Set(g, c));
  }

  /** Removing a guild that is not configured leaves the table identical. */
  lemma {:induction false} RemoveAbsentIsNoop(t: map<string, string>, ops: seq<Mutation>, g: string)
    requires Get(ApplyAll(t, ops), g) == None
    ensures ApplyAll(t, ops + [Remove(g)]) == ApplyAll(t, ops)
  {
    ApplyAllSnoc(t, ops, Remove(g));
  }

  /** A set followed by a set of the same guild: the second channel wins. */
  lemma {:induction false} LastWriterWins(t: map<string, string>, g: string, c1: string, c2: string)
    ensures ApplyAll(t, [Set(g, c1), Set(g, c2)]) == t[g := c2]
  {
    NetEffect(t, [Set(g, c1), Set(g, c2)], g);
    ApplyAllSnoc(t, [Set(g, c1)], Set(g, c2));
    ApplyAllSnoc(t, [], Set(g, c1));
    assert [Set(g, c1)] == [] + [Set(g, c1)];
    assert [Set(g, c1), Set(g, c2)] == [Set(g, c1)] + [Set(g, c2)];
  }
}
