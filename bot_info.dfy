/**
 * The per-guild prefix registry behind the `prefix` command group
 * (`prefix`, `prefix add`, `prefix remove`, `prefix clear`).
 *
 * The pure part states, for one guild's ordered prefix list, what each
 * command replies, what the list becomes and which database statement it
 * issues.  The class `PrefixRegistry` holds the bot's map from guild id to
 * prefix list and a ghost log of the statements sent to the database; its
 * methods run the source's chain of early-return guards and are proved
 * against the pure step functions.
 */
module BotInfo {
  import opened Wrappers
  import opened Text

  /** The prefix a cleared list is reset to (the `'{pb}'` literal of the UPDATE). */
  const DEFAULT_PREFIX: string := "pb"
  /** Longest prefix `add`/`remove` accept. */
  const MAX_PREFIX_LENGTH: nat := 100
  /** `add` refuses once a list holds MORE than this many entries. */
  const PREFIX_LIMIT: nat := 50

  /** No prefix occurs twice. */
  predicate Unique(ps: seq<string>)
  {
    forall i, j | 0 <= i < j < |ps| :: ps[i] != ps[j]
  }

  lemma UniqueCons(x: string, ps: seq<string>)
    ensures Unique([x] + ps) <==> x !in ps && Unique(ps)
  {
    var s := [x] + ps;
    assert s[1..] == ps;
    if x !in ps && Unique(ps) {
      forall i, j | 0 <= i < j < |s| ensures s[i] != s[j] {
        if i > 0 { assert s[i] == ps[i - 1] && s[j] == ps[j - 1]; }
        else { assert s[j] in ps; }
      }
    }
    if Unique(s) {
      forall k | 0 <= k < |ps| ensures ps[k] != x {
        assert s[0] != s[k + 1];
      }
      forall i, j | 0 <= i < j < |ps| ensures ps[i] != ps[j] {
        assert s[i + 1] != s[j + 1];
      }
    }
  }

  /** Appending a prefix that is not yet present keeps the list duplicate-free. */
  lemma UniqueSnoc(ps: seq<string>, p: string)
    requires Unique(ps) && p !in ps
    ensures Unique(ps + [p])
  {
    var s := ps + [p];
    forall i, j | 0 <= i < j < |s| ensures s[i] != s[j] {
      if j == |ps| { assert s[i] in ps; }
    }
  }

  // ---------------------------------------------------------------------------
  // What memory and the database do to a list on `remove`

  /**
   * Python's `list.remove(p)`: drops the FIRST occurrence of `p`, keeping the
   * order of everything else; a list without `p` is returned as it is.
   */
  function RemoveFirst(ps: seq<string>, p: string): (r: seq<string>)
    ensures p !in ps ==> r == ps
    ensures p in ps ==> |r| == |ps| - 1
    ensures multiset(r) == multiset(ps) - multiset{p}
  {
    if ps == [] then []
    else
      assert ps == [ps[0]] + ps[1..];
      if ps[0] == p then ps[1..]
      else [ps[0]] + RemoveFirst(ps[1..], p)
  }

  /** `list.remove` cuts out exactly the first occurrence: the rest keeps its order. */
  lemma {:induction false} RemoveFirstCutsFirstOccurrence(ps: seq<string>, p: string, i: nat)
    requires i < |ps| && ps[i] == p && p !in ps[..i]
    ensures RemoveFirst(ps, p) == ps[..i] + ps[i + 1..]
    decreases i
  {
    if i > 0 {
      var t := ps[1..];
      assert ps[0] in ps[..i];
      assert t[..i - 1] == ps[1..i];
      assert p !in t[..i - 1];
      RemoveFirstCutsFirstOccurrence(t, p, i - 1);
      assert ps[..i] == [ps[0]] + t[..i - 1];
      assert ps[i + 1..] == t[i..];
    }
  }

  /** Postgres `array_remove(arr, p)`: drops EVERY occurrence of `p`. */
  function RemoveAll(ps: seq<string>, p: string): (r: seq<string>)
    ensures forall x :: x in r <==> x in ps && x != p
    ensures |r| <= |ps|
    ensures multiset(r) == multiset(ps)[p := 0]
  {
    if ps == [] then []
    else
      assert ps == [ps[0]] + ps[1..];
      if ps[0] == p then RemoveAll(ps[1..], p)
      else [ps[0]] + RemoveAll(ps[1..], p)
  }

  /**
   * On a duplicate-free list the in-memory `list.remove` and the database's
   * `array_remove` agree, and the removed prefix is gone.
   */
  lemma {:induction false} RemoveAgreesWhenUnique(ps: seq<string>, p: string)
    requires Unique(ps)
    ensures RemoveFirst(ps, p) == RemoveAll(ps, p)
    ensures p !in RemoveFirst(ps, p)
    ensures Unique(RemoveFirst(ps, p))
  {
    if ps != [] {
      assert ps == [ps[0]] + ps[1..];
      UniqueCons(ps[0], ps[1..]);
      RemoveAgreesWhenUnique(ps[1..], p);
      if ps[0] == p {
        assert RemoveFirst(ps[1..], p) == ps[1..];
      } else {
        UniqueCons(ps[0], RemoveFirst(ps[1..], p));
      }
    }
  }

  // ---------------------------------------------------------------------------
  // The commands as steps on one guild's list

  /** The three statement shapes the commands send to the `prefixes` table. */
  datatype Write =
    | Append(prefix: string)            // array_append(guild_prefixes, $1)
    | ArrayRemove(prefix: string)       // array_remove(guild_prefixes, $1)
    | ReplaceAll(prefixes: seq<string>) // guild_prefixes = '{pb}'

  /** One reply per message the commands send. */
  datatype Reply =
    | TooLong
    | AlreadyPrefix(prefix: string)
    | AtCapacity
    | Added(prefix: string)
    | NotFound(prefix: string)
    | OnlyPrefix
    | Removed(prefix: string)
    | Cleared
    | Declined   // `clear` answered "no": nothing is sent

  predicate Accepted(r: Reply)
  {
    r.Added? || r.Removed? || r.Cleared?
  }

  /** The text sent for a reply; a declined `clear` sends nothing. */
  function Message(r: Reply): (m: Option<string>)
    ensures m.None? <==> r == Declined
    ensures (r.AlreadyPrefix? || r.Added? || r.NotFound? || r.Removed?) ==> Contains(m.value, r.prefix)
  {
    match r
    case TooLong => Some("Sorry, that prefix is too long.")
    case AlreadyPrefix(p) =>
      ContainsInfix("`", p, "` is already a prefix for this server.");
      Some("`" + p + "` is already a prefix for this server.")
    case AtCapacity => Some("This server already has 50 prefixes.")
    case Added(p) =>
      ContainsInfix("Added `", p, "` to the list of server prefixes.");
      Some("Added `" + p + "` to the list of server prefixes.")
    case NotFound(p) =>
      ContainsInfix("Couldn't find `", p, "` in the list of prefixes for this server.");
      Some("Couldn't find `" + p + "` in the list of prefixes for this server.")
    case OnlyPrefix => Some("Sorry, you can't remove this server's only prefix.")
    case Removed(p) =>
      ContainsInfix("Removed `", p, "` from the list of server prefixes.");
      Some("Removed `" + p + "` from the list of server prefixes.")
    case Cleared => Some("Cleared the list of server prefixes.")
    case Declined => None
  }

  /** What one command does to a guild's list: the reply, the new list, the statements issued. */
  datatype Step = Step(reply: Reply, after: seq<string>, writes: seq<Write>)

  /** `prefix add`: too long, already present, or over capacity is refused; otherwise appended. */
  function AddStep(ps: seq<string>, p: string): (s: Step)
    ensures s.reply.Added? <==> |p| <= MAX_PREFIX_LENGTH && p !in ps && |ps| <= PREFIX_LIMIT
    ensures |p| > MAX_PREFIX_LENGTH ==> s.reply == TooLong
    ensures |p| <= MAX_PREFIX_LENGTH && p in ps ==> s.reply == AlreadyPrefix(p)
    ensures |p| <= MAX_PREFIX_LENGTH && p !in ps && |ps| > PREFIX_LIMIT ==> s.reply == AtCapacity
    ensures s.reply.Added? ==> s == Step(Added(p), ps + [p], [Append(p)])
    ensures !s.reply.Added? ==> s.after == ps && s.writes == []
  {
    if |p| > MAX_PREFIX_LENGTH then Step(TooLong, ps, [])
    else if p in ps then Step(AlreadyPrefix(p), ps, [])
    else if |ps| > PREFIX_LIMIT then Step(AtCapacity, ps, [])
    else Step(Added(p), ps + [p], [Append(p)])
  }

  /** `prefix remove`: too long, absent, or the only prefix is refused; otherwise the first occurrence goes. */
  function RemoveStep(ps: seq<string>, p: string): (s: Step)
    ensures s.reply.Removed? <==> |p| <= MAX_PREFIX_LENGTH && p in ps && |ps| != 1
    ensures |p| > MAX_PREFIX_LENGTH ==> s.reply == TooLong
    ensures |p| <= MAX_PREFIX_LENGTH && p !in ps ==> s.reply == NotFound(p)
    ensures |p| <= MAX_PREFIX_LENGTH && p in ps && |ps| == 1 ==> s.reply == OnlyPrefix
    ensures s.reply.Removed? ==> s == Step(Removed(p), RemoveFirst(ps, p), [ArrayRemove(p)])
    ensures s.reply.Removed? ==> |s.after| == |ps| - 1
    ensures !s.reply.Removed? ==> s.after == ps && s.writes == []
  {
    if |p| > MAX_PREFIX_LENGTH then Step(TooLong, ps, [])
    else if p !in ps then Step(NotFound(p), ps, [])
    else if |ps| == 1 then Step(OnlyPrefix, ps, [])
    else Step(Removed(p), RemoveFirst(ps, p), [ArrayRemove(p)])
  }

  /** `prefix clear`, given the answer to the confirmation prompt. */
  function ClearStep(ps: seq<string>, confirmed: bool): (s: Step)
    ensures s.reply.Cleared? <==> confirmed
    ensures confirmed ==> s.after == [DEFAULT_PREFIX] && s.writes == [ReplaceAll([DEFAULT_PREFIX])]
    ensures !confirmed ==> s == Step(Declined, ps, [])
  {
    if confirmed then Step(Cleared, [DEFAULT_PREFIX], [ReplaceAll([DEFAULT_PREFIX])])
    else Step(Declined, ps, [])
  }

  datatype Command = Add(prefix: string) | Remove(prefix: string) | Clear(confirmed: bool)

  function Run(c: Command, ps: seq<string>): Step
  {
    match c
    case Add(p) => AddStep(ps, p)
    case Remove(p) => RemoveStep(ps, p)
    case Clear(yes) => ClearStep(ps, yes)
  }

  /**
   * Every accepted command issues exactly one statement, every refused one
   * none and leaves the list as it was; a confirmed `clear` leaves exactly
   * the default prefix.
   */
  lemma OneWritePerAcceptedCommand(c: Command, ps: seq<string>)
    ensures |Run(c, ps).writes| == if Accepted(Run(c, ps).reply) then 1 else 0
    ensures !Accepted(Run(c, ps).reply) ==> Run(c, ps).after == ps
    ensures c.Clear? ==> (Accepted(Run(c, ps).reply) <==> c.confirmed)
    ensures c.Clear? && c.confirmed ==>
      Run(c, ps).after == [DEFAULT_PREFIX] && Run(c, ps).writes == [ReplaceAll([DEFAULT_PREFIX])]
  {
  }

  /** The registry's invariant for one list: non-empty, duplicate-free, at most 51 entries. */
  predicate GoodList(ps: seq<string>)
  {
    ps != [] && Unique(ps) && |ps| <= PREFIX_LIMIT + 1
  }

  /** No command empties a list, introduces a duplicate, or grows it past 51 entries. */
  lemma RunKeepsGoodList(c: Command, ps: seq<string>)
    requires GoodList(ps)
    ensures GoodList(Run(c, ps).after)
  {
    match c
    case Add(p) =>
      if AddStep(ps, p).reply.Added? { UniqueSnoc(ps, p); }
    case Remove(p) =>
      RemoveAgreesWhenUnique(ps, p);
    case Clear(_) =>
  }

  // ---------------------------------------------------------------------------
  // The database copy

  /** What a statement does to the stored array of one guild. */
  function ApplyWrite(stored: seq<string>, w: Write): (r: seq<string>)
    ensures w.Append? ==> r == stored + [w.prefix]
    ensures w.ArrayRemove? ==> multiset(r) == multiset(stored)[w.prefix := 0] && w.prefix !in r
    ensures w.ReplaceAll? ==> r == w.prefixes
  {
    match w
    case Append(p) => stored + [p]
    case ArrayRemove(p) => RemoveAll(stored, p)
    case ReplaceAll(q) => q
  }

  function Replay(stored: seq<string>, ws: seq<Write>): seq<string>
    decreases |ws|
  {
    if ws == [] then stored else Replay(ApplyWrite(stored, ws[0]), ws[1..])
  }

  lemma {:induction false} ReplayConcat(stored: seq<string>, ws: seq<Write>, vs: seq<Write>)
    ensures Replay(stored, ws + vs) == Replay(Replay(stored, ws), vs)
    decreases |ws|
  {
    if ws != [] {
      var next := ApplyWrite(stored, ws[0]);
      assert (ws + vs)[0] == ws[0];
      assert (ws + vs)[1..] == ws[1..] + vs;
      ReplayConcat(next, ws[1..], vs);
      calc {
        Replay(stored, ws + vs);
        Replay(next, ws[1..] + vs);
        Replay(Replay(next, ws[1..]), vs);
        Replay(Replay(stored, ws), vs);
      }
    } else {
      assert ws + vs == vs;
    }
  }

  /**
   * Applying a command's statement to a stored copy equal to the in-memory
   * list yields the new in-memory list, provided the list is duplicate-free.
   */
  lemma DatabaseFollowsMemory(c: Command, ps: seq<string>)
    requires Unique(ps)
    ensures Replay(ps, Run(c, ps).writes) == Run(c, ps).after
  {
    var s := Run(c, ps);
    if c.Remove? && s.reply.Removed? {
      RemoveAgreesWhenUnique(ps, c.prefix);
    }
  }

  /** The list after a sequence of commands, run in order. */
  function RunAll(cmds: seq<Command>, ps: seq<string>): seq<string>
    decreases |cmds|
  {
    if cmds == [] then ps else RunAll(cmds[1..], Run(cmds[0], ps).after)
  }

  /** Every statement those commands issue, in order. */
  function WritesOf(cmds: seq<Command>, ps: seq<string>): seq<Write>
    decreases |cmds|
  {
    if cmds == [] then [] else Run(cmds[0], ps).writes + WritesOf(cmds[1..], Run(cmds[0], ps).after)
  }

  /** From a good list, every guild keeps at least one prefix, no duplicates and at most 51 entries. */
  lemma {:induction false} RunAllKeepsGoodList(cmds: seq<Command>, ps: seq<string>)
    requires GoodList(ps)
    ensures GoodList(RunAll(cmds, ps))
    decreases |cmds|
  {
    if cmds != [] {
      RunKeepsGoodList(cmds[0], ps);
      RunAllKeepsGoodList(cmds[1..], Run(cmds[0], ps).after);
    }
  }

  /** Replaying every issued statement on the stored copy reproduces the in-memory list. */
  lemma {:induction false} DatabaseFollowsMemoryThroughout(cmds: seq<Command>, ps: seq<string>)
    requires Unique(ps)
    ensures Replay(ps, WritesOf(cmds, ps)) == RunAll(cmds, ps)
    decreases |cmds|
  {
    if cmds != [] {
      var s := Run(cmds[0], ps);
      DatabaseFollowsMemory(cmds[0], ps);
      match cmds[0] {
        case Add(p) => if s.reply.Added? { UniqueSnoc(ps, p); }
        case Remove(p) => RemoveAgreesWhenUnique(ps, p);
        case Clear(_) =>
      }
      ReplayConcat(ps, s.writes, WritesOf(cmds[1..], s.after));
      DatabaseFollowsMemoryThroughout(cmds[1..], s.after);
    }
  }

  // ---------------------------------------------------------------------------
  // The registry

  /** What `prefix` (no sub-command) says. */
  datatype ShowReply =
    | DirectMessage                   // outside a guild the prefix is always `pb`
    | OnePrefix(prefix: string)
    | ManyPrefixes(prefixes: seq<string>)

  /** One database statement, keyed by guild id. */
  datatype Statement = Statement(guild: int, write: Write)

  function Logged(guild: int, ws: seq<Write>): (r: seq<Statement>)
    ensures |r| == |ws|
    ensures forall i :: 0 <= i < |ws| ==> r[i] == Statement(guild, ws[i])
  {
    if ws == [] then [] else [Statement(guild, ws[0])] + Logged(guild, ws[1..])
  }

  class PrefixRegistry {
    /** `bot.prefixes`: guild id to its ordered list of prefixes. */
    var prefixes: map<int, seq<string>>
    /** Every statement sent to the database, oldest first. */
    ghost var log: seq<Statement>

    /**
     * The registry's invariant: every known guild has at least one prefix, no
     * prefix twice, and at most 51 of them.
     */
    ghost predicate Valid()
      reads this
    {
      forall g | g in prefixes :: GoodList(prefixes[g])
    }

    constructor (initial: map<int, seq<string>>)
      requires forall g | g in initial :: GoodList(initial[g])
      ensures Valid()
      ensures prefixes == initial && log == []
    {
      prefixes := initial;
      log := [];
    }

    /** `prefix`: the prefix or prefixes of the current guild, or the direct-message notice. */
    method Show(guild: Option<int>) returns (r: ShowReply)
      requires guild.Some? ==> guild.value in prefixes
      ensures guild.None? ==> r == DirectMessage
      ensures guild.Some? && |prefixes[guild.value]| == 1 ==> r == OnePrefix(prefixes[guild.value][0])
      ensures guild.Some? && |prefixes[guild.value]| != 1 ==> r == ManyPrefixes(prefixes[guild.value])
    {
      if guild.None? {
        return DirectMessage;
      }
      var ps := prefixes[guild.value];
      if |ps| == 1 {
        return OnePrefix(ps[0]);
      }
      r := ManyPrefixes(ps);
    }

    /**
     * `prefix add`.  The length guard runs before the guild's list is read, so
     * an over-long prefix is refused even for a guild without an entry.
     */
    method Add(guild: int, p: string) returns (r: Reply)
      requires Valid() && (guild in prefixes || |p| > MAX_PREFIX_LENGTH)
      modifies this
      ensures Valid()
      ensures guild !in old(prefixes) ==> r == TooLong && prefixes == old(prefixes) && log == old(log)
      ensures guild in old(prefixes) ==> r == AddStep(old(prefixes[guild]), p).reply
      ensures guild in old(prefixes) ==>
        prefixes == old(prefixes)[guild := AddStep(old(prefixes[guild]), p).after]
      ensures guild in old(prefixes) ==>
        log == old(log) + Logged(guild, AddStep(old(prefixes[guild]), p).writes)
    {
      if |p| > MAX_PREFIX_LENGTH {
        return TooLong;
      }
      var current := prefixes[guild];
      RunKeepsGoodList(Command.Add(p), current);
      if p in current {
        return AlreadyPrefix(p);
      }
      if |current| > PREFIX_LIMIT {
        return AtCapacity;
      }
      prefixes := prefixes[guild := current + [p]];
      log := log + [Statement(guild, Append(p))];
      r := Added(p);
    }

    /** `prefix remove`.  As in `Add`, the length guard comes before the lookup. */
    method Remove(guild: int, p: string) returns (r: Reply)
      requires Valid() && (guild in prefixes || |p| > MAX_PREFIX_LENGTH)
      modifies this
      ensures Valid()
      ensures guild !in old(prefixes) ==> r == TooLong && prefixes == old(prefixes) && log == old(log)
      ensures guild in old(prefixes) ==> r == RemoveStep(old(prefixes[guild]), p).reply
      ensures guild in old(prefixes) ==>
        prefixes == old(prefixes)[guild := RemoveStep(old(prefixes[guild]), p).after]
      ensures guild in old(prefixes) ==>
        log == old(log) + Logged(guild, RemoveStep(old(prefixes[guild]), p).writes)
    {
      if |p| > MAX_PREFIX_LENGTH {
        return TooLong;
      }
      var current := prefixes[guild];
      RunKeepsGoodList(Command.Remove(p), current);
      if p !in current {
        return NotFound(p);
      }
      if |current| == 1 {
        return OnlyPrefix;
      }
      prefixes := prefixes[guild := RemoveFirst(current, p)];
      log := log + [Statement(guild, ArrayRemove(p))];
      r := Removed(p);
    }

    /**
     * `prefix clear`, with the answer to its confirmation prompt.  The list is
     * assigned, not indexed, so a guild without an entry gets one.
     */
    method Clear(guild: int, confirmed: bool) returns (r: Reply)
      requires Valid()
      modifies this
      ensures Valid()
      ensures guild in old(prefixes) ==> r == ClearStep(old(prefixes[guild]), confirmed).reply
      ensures r == if confirmed then Cleared else Declined
      ensures confirmed ==> prefixes == old(prefixes)[guild := [DEFAULT_PREFIX]]
      ensures confirmed ==> log == old(log) + [Statement(guild, ReplaceAll([DEFAULT_PREFIX]))]
      ensures !confirmed ==> prefixes == old(prefixes) && log == old(log)
    {
      if confirmed {
        prefixes := prefixes[guild := [DEFAULT_PREFIX]];
        log := log + [Statement(guild, ReplaceAll([DEFAULT_PREFIX]))];
        r := Cleared;
      } else {
        r := Declined;
      }
    }
  }
}
