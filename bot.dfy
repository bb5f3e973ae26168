/**
 The decisions of the bot (bot.go): which tweets are relayed and with what
 text, where a relayed tweet goes, who counts as an administrator, and how a
 `!kb` chat command is answered and what it does to the configuration store.

 The chat platform session is an oracle: `Session` answers the two lookups the
 administrator check makes, and a lookup fails when the oracle has no answer.
 Messages the bot sends are returned as a record instead of being sent.
 */
module Bot {
  import opened Wrappers
  import opened Store
  import opened Text

  // ---------------------------------------------------------------------------
  // Relaying tweets (doKirbPost)

  /** The fields of a tweet that the relay reads. */
  datatype Tweet = Tweet(
    text: string,
    fullText: string,
    retweeted: bool,
    retweetedStatus: Option<Tweet>,
    quotedStatus: Option<Tweet>,
    inReplyToUserID: int)

  /** Only original posts that answer nobody are relayed. */
  predicate Accepted(t: Tweet)
  {
    !t.retweeted && t.retweetedStatus.None? && t.inReplyToUserID == 0
  }

  /**
   The filter does not look at the quoted tweet: quoting another tweet neither
   admits nor rejects a tweet.
   */
  lemma QuoteTweetsPass(t: Tweet, quoted: Tweet)
    ensures Accepted(t.(quotedStatus := Some(quoted))) == Accepted(t.(quotedStatus := None))
    ensures !t.retweeted && t.retweetedStatus.None? && t.inReplyToUserID == 0 ==>
      Accepted(t.(quotedStatus := Some(quoted)))
  {
  }

  function Max(a: nat, b: nat): nat
  {
    if a < b then b else a
  }

  /**
   The text a relayed tweet is shown with: the longer of the two texts,
   measured as Go measures strings (in UTF-8 bytes); `text` on a tie.
   */
  function DisplayText(t: Tweet): (msg: string)
    ensures msg == t.text || msg == t.fullText
    ensures Utf8Len(msg) == Max(Utf8Len(t.text), Utf8Len(t.fullText))
    ensures Utf8Len(t.fullText) <= Utf8Len(t.text) ==> msg == t.text
  {
    var msg := t.text;
    if Utf8Len(t.fullText) > Utf8Len(msg) then t.fullText else msg
  }

  /** One delivery attempt: the tweet's text sent to a guild's channel. */
  datatype Post = Post(guild: string, channel: string, text: string)

  /** `posts` attempts delivery to every guild of `table` exactly once, each to its channel. */
  ghost predicate FansOut(posts: seq<Post>, table: map<string, string>, text: string)
  {
    && (forall i :: 0 <= i < |posts| ==>
          posts[i].guild in table && posts[i].channel == table[posts[i].guild] && posts[i].text == text)
    && (forall i, j :: 0 <= i < j < |posts| ==> posts[i].guild != posts[j].guild)
    && (forall g :: g in table ==> exists i :: 0 <= i < |posts| && posts[i].guild == g)
  }

  /**
   Filter a tweet and, if it is accepted, attempt to post its display text to
   every configured channel, in the store's (unspecified) iteration order.
   */
  method DoKirbPost(tweet: Tweet, repo: MapRepo) returns (posts: seq<Post>)
    ensures !Accepted(tweet) ==> posts == []
    ensures Accepted(tweet) ==> FansOut(posts, repo.Contents(), DisplayText(tweet))
  {
    posts := [];
    if !Accepted(tweet) {
      return;
    }
    var msg := DisplayText(tweet);
    var channels, err := repo.GetKirbChannels();
    var pending := channels.entries.Keys;
    while pending != {}
      invariant pending <= channels.entries.Keys
      invariant forall i :: 0 <= i < |posts| ==>
        && posts[i].guild in channels.entries && posts[i].guild !in pending
        && posts[i].channel == channels.entries[posts[i].guild] && posts[i].text == msg
      invariant forall i, j :: 0 <= i < j < |posts| ==> posts[i].guild != posts[j].guild
      invariant forall g :: g in channels.entries && g !in pending ==>
        exists i :: 0 <= i < |posts| && posts[i].guild == g
      decreases pending
    {
      var guild :| guild in pending;
      var channel := channels.entries[guild];
      ghost var before := posts;
      posts := posts + [Post(guild, channel, msg)];
      forall g | g in channels.entries && g !in pending - {guild}
        ensures exists i :: 0 <= i < |posts| && posts[i].guild == g
      {
        if g == guild {
          assert posts[|posts| - 1].guild == g;
        } else {
          var i :| 0 <= i < |before| && before[i].guild == g;
          assert posts[i] == before[i];
        }
      }
      pending := pending - {guild};
    }
  }

  // ---------------------------------------------------------------------------
  // The administrator check (isAdmin)

  /** Discord's ADMINISTRATOR permission bit. */
  const PermissionAdministrator: bv64 := 1 << 3

  datatype Role = Role(id: string, permissions: bv64)
  datatype Member = Member(roles: seq<string>)

  /**
   What the chat platform answers: the member record of (guild, user) and the
   role list of a guild. An absent key is a failed lookup.
   */
  datatype Session = Session(members: map<(string, string), Member>, guildRoles: map<string, seq<Role>>)

  predicate GrantsAdministrator(r: Role)
  {
    r.permissions & PermissionAdministrator != 0
  }

  /**
   A member is an administrator exactly when both lookups succeed and some role
   of the guild that the member holds carries the ADMINISTRATOR bit.
   */
  ghost predicate AdminRule(s: Session, guild: string, user: string)
  {
    && (guild, user) in s.members
    && guild in s.guildRoles
    && exists r :: r in s.guildRoles[guild] && r.id in s.members[(guild, user)].roles && GrantsAdministrator(r)
  }

  /** `isAdmin`: scan the guild's roles, and for each the member's role IDs. */
  method IsAdmin(s: Session, guild: string, user: string) returns (admin: bool)
    ensures admin <==> AdminRule(s, guild, user)
  {
    if (guild, user) !in s.members {
      return false;
    }
    var m := s.members[(guild, user)];
    if guild !in s.guildRoles {
      return false;
    }
    var roles := s.guildRoles[guild];
    var i := 0;
    while i < |roles|
      invariant 0 <= i <= |roles|
      invariant forall k :: 0 <= k < i ==> !(roles[k].id in m.roles && GrantsAdministrator(roles[k]))
    {
      var role := roles[i];
      var j := 0;
      while j < |m.roles|
        invariant 0 <= j <= |m.roles|
        invariant forall k :: 0 <= k < j ==> m.roles[k] != role.id
      {
        if m.roles[j] == role.id {
          if role.permissions & PermissionAdministrator != 0 {
            return true;
          }
          break;
        }
        j := j + 1;
      }
      i := i + 1;
    }
    return false;
  }

  // ---------------------------------------------------------------------------
  // The `!kb` command (onMessage)

  /** The parts of an incoming chat message the handler reads. */
  datatype Message = Message(
    authorID: string,
    authorIsBot: bool,
    guildID: string,
    channelID: string,
    content: string)

  /** A message the bot sends: plain text, or the help embed. */
  datatype Reply = Send(channel: string, text: string) | HelpMenu(channel: string)

  const Prefix := "!kb"
  const SetCommand := "set-kirb-post"
  const RemoveCommand := "remove-kirb-post"
  const CheckCommand := "check-kirb-post"
  const HelpCommand := "help"

  const Denied := "You don't have permission for that!"
  const SetConfirmed := "Let the kirb posting commence!"
  const RemoveConfirmed := "No more kirb posting :c"
  const NotConfigured := "No kirb posting on this server :c"
  const UnknownCommand := "I dunno what you're tellin me to do"

  function CheckReport(channel: string): string
  {
    "Kirb posting set to happen in <#" + channel + ">"
  }

  /** The commands that only an administrator may run. */
  predicate Guarded(sub: string)
  {
    sub == SetCommand || sub == RemoveCommand || sub == CheckCommand
  }

  /**
   The subcommand a message invokes, or None when the handler ignores it:
   messages by bots, and messages whose first field is not `!kb`. A bare `!kb`
   invokes `help`.
   */
  function Invocation(m: Message): (sub: Option<string>)
    ensures sub.Some? <==> !m.authorIsBot && |Fields(m.content)| > 0 && Fields(m.content)[0] == Prefix
    ensures sub.Some? ==> IsWord(sub.value)
    ensures sub.Some? && |Fields(m.content)| == 1 ==> sub.value == HelpCommand
    ensures sub.Some? && |Fields(m.content)| > 1 ==> sub.value == Fields(m.content)[1]
  {
    if m.authorIsBot then None
    else
      var fields := Fields(m.content);
      if |fields| == 0 || fields[0] != Prefix then None
      else if |fields| == 1 then Some(HelpCommand)
      else Some(fields[1])
  }

  /**
   `onMessage`: answer one chat message, reading and updating the store. Each
   case names the replies sent and the store afterwards.
   */
  method OnMessage(s: Session, repo: MapRepo, m: Message) returns (replies: seq<Reply>)
    modifies repo.channels
    ensures Invocation(m).None? ==> replies == [] && repo.Contents() == old(repo.Contents())
    ensures Invocation(m).Some? && Guarded(Invocation(m).value) && !AdminRule(s, m.guildID, m.authorID) ==>
      replies == [Send(m.channelID, Denied)] && repo.Contents() == old(repo.Contents())
    ensures Invocation(m) == Some(SetCommand) && AdminRule(s, m.guildID, m.authorID) ==>
      replies == [Send(m.channelID, SetConfirmed)]
      && repo.Contents() == old(repo.Contents())[m.guildID := m.channelID]
    ensures Invocation(m) == Some(RemoveCommand) && AdminRule(s, m.guildID, m.authorID) ==>
      replies == [Send(m.channelID, RemoveConfirmed)]
      && repo.Contents() == old(repo.Contents()) - {m.guildID}
    ensures Invocation(m) == Some(CheckCommand) && AdminRule(s, m.guildID, m.authorID) ==>
      repo.Contents() == old(repo.Contents())
      && replies == [Send(m.channelID,
                          if m.guildID in repo.Contents() then CheckReport(repo.Contents()[m.guildID])
                          else NotConfigured)]
    ensures Invocation(m) == Some(HelpCommand) ==>
      replies == [HelpMenu(m.channelID)] && repo.Contents() == old(repo.Contents())
    ensures Invocation(m).Some? && !Guarded(Invocation(m).value) && Invocation(m).value != HelpCommand ==>
      replies == [Send(m.channelID, UnknownCommand)] && repo.Contents() == old(repo.Contents())
  {
    replies := [];
    if m.authorIsBot {
      return;
    }
    var fields := Fields(m.content);
    if |fields| == 0 {
      return;
    }
    if fields[0] == Prefix {
      if |fields| == 1 {
        fields := fields + [HelpCommand];
      }
      var sub := fields[1];
      if sub == SetCommand {
        var admin := IsAdmin(s, m.guildID, m.authorID);
        if !admin {
          replies := replies + [Send(m.channelID, Denied)];
        } else {
          var err := repo.SetKirbChannel(m.guildID, m.channelID);
          replies := replies + [Send(m.channelID, SetConfirmed)];
        }
      } else if sub == RemoveCommand {
        var admin := IsAdmin(s, m.guildID, m.authorID);
        if !admin {
          replies := replies + [Send(m.channelID, Denied)];
        } else {
          var err := repo.RemoveKirbChannel(m.guildID);
          replies := replies + [Send(m.channelID, RemoveConfirmed)];
        }
      } else if sub == CheckCommand {
        var admin := IsAdmin(s, m.guildID, m.authorID);
        if !admin {
          replies := replies + [Send(m.channelID, Denied)];
        } else {
          var snapshot, err := repo.GetKirbChannels();
          var ch, ok := snapshot.Lookup(m.guildID);
          if !ok {
            replies := replies + [Send(m.channelID, NotConfigured)];
            return;
          }
          replies := replies + [Send(m.channelID, CheckReport(ch))];
        }
      } else if sub == HelpCommand {
        replies := replies + [HelpMenu(m.channelID)];
      } else {
        replies := replies + [Send(m.channelID, UnknownCommand)];
      }
    }
  }

  /** A bare `!kb` is handled exactly as `!kb help` typed in the same place. */
  lemma BareKbIsHelp(m: Message)
    requires Fields(m.content) == [Prefix]
    ensures Invocation(m) == Invocation(m.(content := m.content + " help"))
    ensures m.authorIsBot || Invocation(m) == Some(HelpCommand)
  {
    var helped := m.(content := m.content + " help");
    var suffix: string := " help";
    assert suffix == [' '] + HelpCommand;
    assert AllSpace([' ']);
    assert IsWord(HelpCommand);
    FieldsAfterSpace([' '], HelpCommand);
    FieldsOfWord(HelpCommand);
    assert Fields(suffix) == [HelpCommand];
    FieldsAppend(m.content, suffix);
    assert Fields(helped.content) == [Prefix] + [HelpCommand];
  }

  /** Only a first field of exactly `!kb` is a command; white space alone is ignored. */
  lemma OnlyPrefixIsHandled(m: Message)
    requires AllSpace(m.content) || (Fields(m.content) != [] && Fields(m.content)[0] != Prefix)
    ensures Invocation(m) == None
  {
    FieldsEmptyIff(m.content);
  }
}
