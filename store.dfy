/**
 * The key-value semantics both servers share: a `HashMap<String, Vec<u8>>`,
 * and what SET and GET do to it and reply. `Command::from_frame` belongs to the
 * `mini_redis` crate; it enters the model as a function-typed value.
 */
module Store {
  import opened Outcomes
  import opened Resp

  /** The database: `HashMap<String, Vec<u8>>`. */
  type Entries = map<string, Bytes>

  /** The commands the servers tell apart; every other command is `Other`. */
  datatype Command = Get(key: string) | Set(key: string, value: Bytes) | Other(name: string)

  /** `Command::from_frame`: a frame to a command, or an error. */
  type CommandParser = Frame -> Res<Command>

  /** The reply text to a SET: the bytes of "OK". */
  const OK: Bytes := [79, 75]

  /** The value stored under `key`, if any. */
  function Lookup(entries: Entries, key: string): Option<Bytes>
  {
    if key in entries then Some(entries[key]) else None
  }

  /** The reply frame for a lookup: the value as a bulk string, or the null bulk string. */
  function Found(v: Option<Bytes>): Frame
  {
    match v
    case Some(b) => Bulk(b)
    case None => Null
  }

  /**
   * SET inserts (or overwrites) the key and replies "OK"; GET replies with the
   * stored value, or Null when the key is absent, and changes nothing.
   */
  function Apply(entries: Entries, cmd: Command): (r: (Frame, Entries))
    requires !cmd.Other?
    ensures cmd.Set? ==> r.0 == Simple(OK) && Lookup(r.1, cmd.key) == Some(cmd.value)
    ensures cmd.Set? ==> r.1.Keys == entries.Keys + {cmd.key}
    ensures cmd.Set? ==> forall k :: k != cmd.key ==> Lookup(r.1, k) == Lookup(entries, k)
    ensures cmd.Get? ==> r.1 == entries
    ensures cmd.Get? ==> (r.0.Bulk? <==> cmd.key in entries) && (r.0.Null? <==> cmd.key !in entries)
    ensures cmd.Get? && r.0.Bulk? ==> r.0.data == entries[cmd.key]
    ensures Encodable(r.0)
  {
    match cmd
    case Set(key, value) =>
      (Simple(OK), entries[key := value])
    case Get(key) => (if key in entries then Bulk(entries[key]) else Null, entries)
  }

  /** Commands that are all SET or GET. */
  predicate Supported(cmds: seq<Command>)
  {
    forall i :: 0 <= i < |cmds| ==> !cmds[i].Other?
  }

  /** Running commands one after another: the replies in order and the final database. */
  function ApplyAll(entries: Entries, cmds: seq<Command>): (r: (seq<Frame>, Entries))
    requires Supported(cmds)
    ensures |r.0| == |cmds|
    decreases |cmds|
  {
    if cmds == [] then ([], entries)
    else
      var (reply, next) := Apply(entries, cmds[0]);
      var (replies, last) := ApplyAll(next, cmds[1..]);
      ([reply] + replies, last)
  }

  /** A script with one more command in front is supported when both parts are. */
  lemma SupportedCons(c: Command, cmds: seq<Command>)
    ensures Supported([c] + cmds) <==> !c.Other? && Supported(cmds)
  {
    var l := [c] + cmds;
    assert l[0] == c;
    assert forall i :: 0 <= i < |cmds| ==> l[i + 1] == cmds[i];
  }

  /** Running one more command in front: its reply first, then the rest run from the database it leaves. */
  lemma ApplyAllCons(entries: Entries, c: Command, cmds: seq<Command>)
    requires !c.Other? && Supported(cmds)
    ensures Supported([c] + cmds)
    ensures ApplyAll(entries, [c] + cmds).0 == [Apply(entries, c).0] + ApplyAll(Apply(entries, c).1, cmds).0
    ensures ApplyAll(entries, [c] + cmds).1 == ApplyAll(Apply(entries, c).1, cmds).1
  {
    SupportedCons(c, cmds);
    var l := [c] + cmds;
    assert l[0] == c && l[1..] == cmds;
  }

  /**
   * Reference definition, searching backwards: the value of `key` after the
   * commands is the value of the latest SET to it, or its initial value when
   * there is none.
   */
  function Latest(entries: Entries, cmds: seq<Command>, key: string): Option<Bytes>
    decreases |cmds|
  {
    if cmds == [] then Lookup(entries, key)
    else
      var c := cmds[|cmds| - 1];
      if c.Set? && c.key == key then Some(c.value) else Latest(entries, cmds[..|cmds| - 1], key)
  }

  /** Running commands and then one more is running the longer script. */
  lemma {:induction false} ApplyAllSnoc(entries: Entries, cmds: seq<Command>, c: Command)
    requires Supported(cmds) && !c.Other?
    ensures Supported(cmds + [c])
    ensures ApplyAll(entries, cmds + [c]).0 == ApplyAll(entries, cmds).0 + [Apply(ApplyAll(entries, cmds).1, c).0]
    ensures ApplyAll(entries, cmds + [c]).1 == Apply(ApplyAll(entries, cmds).1, c).1
    decreases |cmds|
  {
    assert Supported(cmds + [c]) by {
      forall i | 0 <= i < |cmds + [c]| ensures !(cmds + [c])[i].Other? {
        if i < |cmds| { assert (cmds + [c])[i] == cmds[i]; }
      }
    }
    if cmds == [] {
      assert cmds + [c] == [c] && [c][1..] == [];
    } else {
      var next := Apply(entries, cmds[0]).1;
      assert (cmds + [c])[0] == cmds[0];
      assert (cmds + [c])[1..] == cmds[1..] + [c];
      ApplyAllSnoc(next, cmds[1..], c);
      var replies := ApplyAll(next, cmds[1..]).0;
      var reply := Apply(ApplyAll(next, cmds[1..]).1, c).0;
      assert [Apply(entries, cmds[0]).0] + (replies + [reply]) == ([Apply(entries, cmds[0]).0] + replies) + [reply];
    }
  }

  /** The database after the commands holds, for every key, the value of its latest SET. */
  lemma {:induction false} FinalIsLatest(entries: Entries, cmds: seq<Command>, key: string)
    requires Supported(cmds)
    ensures Lookup(ApplyAll(entries, cmds).1, key) == Latest(entries, cmds, key)
    decreases |cmds|
  {
    if cmds != [] {
      var init := cmds[..|cmds| - 1];
      var c := cmds[|cmds| - 1];
      assert init + [c] == cmds;
      FinalIsLatest(entries, init, key);
      ApplyAllSnoc(entries, init, c);
    }
  }

  /**
   * Read-your-writes: the reply to a GET is the value of the latest SET to its
   * key before it (or the initial value, or Null when there is none).
   */
  lemma GetSeesLatest(entries: Entries, cmds: seq<Command>, i: nat)
    requires Supported(cmds) && i < |cmds| && cmds[i].Get?
    ensures ApplyAll(entries, cmds).0[i] == Found(Latest(entries, cmds[..i], cmds[i].key))
  {
    var before := cmds[..i];
    var upto := cmds[..i + 1];
    assert upto == before + [cmds[i]];
    ApplyAllSnoc(entries, before, cmds[i]);
    FinalIsLatest(entries, before, cmds[i].key);
    PrefixReplies(entries, cmds, i + 1);
  }

  /** The replies to a prefix of the commands are a prefix of the replies. */
  lemma {:induction false} PrefixReplies(entries: Entries, cmds: seq<Command>, n: nat)
    requires Supported(cmds) && n <= |cmds|
    ensures Supported(cmds[..n])
    ensures ApplyAll(entries, cmds[..n]).0 == ApplyAll(entries, cmds).0[..n]
    decreases |cmds|
  {
    if n > 0 {
      var next := Apply(entries, cmds[0]).1;
      assert cmds[..n][1..] == cmds[1..][..n - 1];
      PrefixReplies(next, cmds[1..], n - 1);
    }
  }

  /** A second SET to the same key replaces the first: only the latest write counts. */
  lemma SetOverwrites(entries: Entries, key: string, v1: Bytes, v2: Bytes)
    ensures Apply(Apply(entries, Set(key, v1)).1, Set(key, v2)).1 == Apply(entries, Set(key, v2)).1
  {
  }

  /** GET never changes the database, so repeating it repeats the reply. */
  lemma GetIdempotent(entries: Entries, key: string)
    ensures ApplyAll(entries, [Get(key), Get(key)]).0 == [Apply(entries, Get(key)).0, Apply(entries, Get(key)).0]
  {
    assert [Get(key), Get(key)][1..] == [Get(key)];
  }
}
