// Command dispatch over the key-value map: `get`, `set` and `del`.
module KeyValue {
  import opened Bytes
  import opened Wire

  type Key = seq<byte>
  type Value = seq<byte>
  type Store = map<Key, Value>

  /** "get" */
  const GET: seq<byte> := [0x67, 0x65, 0x74]
  /** "set" */
  const SET: seq<byte> := [0x73, 0x65, 0x74]
  /** "del" */
  const DEL: seq<byte> := [0x64, 0x65, 0x6c]
  /** "OK" */
  const OK_TEXT: seq<byte> := [0x4f, 0x4b]
  /** "Key not found" */
  const NOT_FOUND_TEXT: seq<byte> := [0x4b, 0x65, 0x79, 0x20, 0x6e, 0x6f, 0x74, 0x20, 0x66, 0x6f, 0x75, 0x6e, 0x64]
  /** "Error: Unrecognized command" */
  const UNKNOWN_TEXT: seq<byte> := [0x45, 0x72, 0x72, 0x6f, 0x72, 0x3a, 0x20, 0x55, 0x6e, 0x72, 0x65, 0x63, 0x6f, 0x67, 0x6e, 0x69, 0x7a, 0x65, 0x64, 0x20, 0x63, 0x6f, 0x6d, 0x6d, 0x61, 0x6e, 0x64]

  /** The store after a command, and the response to it. */
  datatype Outcome = Outcome(store: Store, resp: Response)

  /** do_request as a function of the store before the command. A `get` that
      finds its key leaves the status at its initial value, RES_OK. */
  function Execute(store: Store, cmd: seq<seq<byte>>): (r: Outcome)
    ensures r.resp.status in {RES_OK, RES_ERR, RES_NX}
  {
    if |cmd| == 2 && cmd[0] == GET then
      if cmd[1] in store then Outcome(store, Response(RES_OK, store[cmd[1]]))
      else Outcome(store, Response(RES_NX, NOT_FOUND_TEXT))
    else if |cmd| == 3 && cmd[0] == SET then
      Outcome(store[cmd[1] := cmd[2]], Response(RES_OK, OK_TEXT))
    else if |cmd| == 2 && cmd[0] == DEL then
      if cmd[1] in store then Outcome(store - {cmd[1]}, Response(RES_OK, OK_TEXT))
      else Outcome(store, Response(RES_NX, NOT_FOUND_TEXT))
    else
      Outcome(store, Response(RES_ERR, UNKNOWN_TEXT))
  }

  function GetCmd(k: Key): seq<seq<byte>> { [GET, k] }
  function SetCmd(k: Key, v: Value): seq<seq<byte>> { [SET, k, v] }
  function DelCmd(k: Key): seq<seq<byte>> { [DEL, k] }

  /** The command may change the entry of `k`: a well-shaped `set` or `del` of `k`. */
  predicate Writes(cmd: seq<seq<byte>>, k: Key) {
    ((|cmd| == 3 && cmd[0] == SET) || (|cmd| == 2 && cmd[0] == DEL)) && cmd[1] == k
  }

  /** The global map `g_data`, updated in place by do_request. */
  class KvStore {
    var data: Store

    constructor ()
      ensures data == map[]
    {
      data := map[];
    }

    /** do_request: run one command against the map and build its response. */
    method DoRequest(cmd: seq<seq<byte>>) returns (resp: Response)
      modifies this
      ensures data == Execute(old(data), cmd).store
      ensures resp == Execute(old(data), cmd).resp
    {
      resp := Response(RES_OK, []);
      if |cmd| == 2 && cmd[0] == GET {
        if cmd[1] !in data {
          resp := Response(RES_NX, NOT_FOUND_TEXT);
          return;
        }
        resp := resp.(data := data[cmd[1]]);
      } else if |cmd| == 3 && cmd[0] == SET {
        data := data[cmd[1] := cmd[2]];
        resp := Response(RES_OK, OK_TEXT);
      } else if |cmd| == 2 && cmd[0] == DEL {
        if cmd[1] in data {
          data := data - {cmd[1]};
          resp := Response(RES_OK, OK_TEXT);
        } else {
          resp := Response(RES_NX, NOT_FOUND_TEXT);
        }
      } else {
        resp := Response(RES_ERR, UNKNOWN_TEXT);
      }
    }
  }

  // ------------------------------------------------------ one-command facts

  /** `set k v` stores `v` under `k` and answers OK. */
  lemma SetStores(store: Store, k: Key, v: Value)
    ensures var o := Execute(store, SetCmd(k, v));
      k in o.store && o.store[k] == v && o.resp == Response(RES_OK, OK_TEXT)
  {
  }

  /** `get k` answers with the stored bytes when `k` is present, else "Key not found";
      either way the map is unchanged. */
  lemma GetAnswers(store: Store, k: Key)
    ensures var o := Execute(store, GetCmd(k));
      o.store == store &&
      o.resp == if k in store then Response(RES_OK, store[k]) else Response(RES_NX, NOT_FOUND_TEXT)
  {
  }

  /** `del k` removes `k`, answering OK if it was present and "Key not found" otherwise. */
  lemma DelRemoves(store: Store, k: Key)
    ensures var o := Execute(store, DelCmd(k));
      k !in o.store &&
      o.resp == if k in store then Response(RES_OK, OK_TEXT) else Response(RES_NX, NOT_FOUND_TEXT)
  {
  }

  /** Any other command shape is answered with RES_ERR and leaves the map alone. */
  lemma UnknownIsError(store: Store, cmd: seq<seq<byte>>)
    requires !(|cmd| == 2 && cmd[0] == GET) && !(|cmd| == 3 && cmd[0] == SET) && !(|cmd| == 2 && cmd[0] == DEL)
    ensures Execute(store, cmd) == Outcome(store, Response(RES_ERR, UNKNOWN_TEXT))
  {
  }

  /** No command touches a key it does not name for writing. */
  lemma OtherKeysUnchanged(store: Store, cmd: seq<seq<byte>>, k: Key)
    requires !Writes(cmd, k)
    ensures var s := Execute(store, cmd).store;
      (k in s <==> k in store) && (k in store ==> s[k] == store[k])
  {
  }

  // ------------------------------------------------------- command sequences

  /** Run commands in order: the final map and the responses, in command order. */
  function Run(store: Store, cmds: seq<seq<seq<byte>>>): (r: (Store, seq<Response>))
    ensures |r.1| == |cmds|
    decreases |cmds|
  {
    if cmds == [] then (store, [])
    else
      var o := Execute(store, cmds[0]);
      var rest := Run(o.store, cmds[1..]);
      (rest.0, [o.resp] + rest.1)
  }

  /** Running `a` then `b` is running `a + b`. */
  lemma {:induction false} RunAppend(store: Store, a: seq<seq<seq<byte>>>, b: seq<seq<seq<byte>>>)
    ensures var ra := Run(store, a); var rb := Run(ra.0, b);
      Run(store, a + b) == (rb.0, ra.1 + rb.1)
    decreases |a|
  {
    if a == [] {
      assert a + b == b;
      assert [] + Run(store, b).1 == Run(store, b).1;
    } else {
      var o := Execute(store, a[0]);
      assert (a + b)[0] == a[0] && (a + b)[1..] == a[1..] + b;
      RunAppend(o.store, a[1..], b);
      var ra' := Run(o.store, a[1..]);
      var rb := Run(ra'.0, b);
      assert [o.resp] + (ra'.1 + rb.1) == ([o.resp] + ra'.1) + rb.1;
    }
  }

  /** Commands that do not write `k` leave its entry as it was. */
  lemma {:induction false} RunKeepsKey(store: Store, cmds: seq<seq<seq<byte>>>, k: Key)
    requires forall i | 0 <= i < |cmds| :: !Writes(cmds[i], k)
    ensures var s := Run(store, cmds).0;
      (k in s <==> k in store) && (k in store ==> s[k] == store[k])
    decreases |cmds|
  {
    if cmds != [] {
      OtherKeysUnchanged(store, cmds[0], k);
      RunKeepsKey(Execute(store, cmds[0]).store, cmds[1..], k);
    }
  }

  /** After `set k v`, a later `get k` answers `v` as long as nothing in between
      sets or deletes `k`; after `del k` it answers "Key not found". */
  lemma LastWriteWins(store: Store, k: Key, v: Value, mid: seq<seq<seq<byte>>>)
    requires forall i | 0 <= i < |mid| :: !Writes(mid[i], k)
    ensures Run(store, [SetCmd(k, v)] + mid + [GetCmd(k)]).1[|mid| + 1] == Response(RES_OK, v)
    ensures Run(store, [DelCmd(k)] + mid + [GetCmd(k)]).1[|mid| + 1] == Response(RES_NX, NOT_FOUND_TEXT)
  {
    forall w | w == SetCmd(k, v) || w == DelCmd(k)
      ensures var r := Run(store, [w] + mid + [GetCmd(k)]);
        var s := Run(Execute(store, w).store, mid).0;
        r.1[|mid| + 1] == Execute(s, GetCmd(k)).resp
    {
      RunAppend(store, [w], mid);
      RunAppend(store, [w] + mid, [GetCmd(k)]);
    }
    RunKeepsKey(Execute(store, SetCmd(k, v)).store, mid, k);
    RunKeepsKey(Execute(store, DelCmd(k)).store, mid, k);
  }

  // ---------------------------------------------------------- value lengths

  /** Every stored value is at most `bound` bytes long. */
  predicate ValuesWithin(store: Store, bound: nat) {
    forall k | k in store :: |store[k]| <= bound
  }

  /** Commands whose strings are at most `bound` bytes (and `bound` admits the fixed
      replies) keep every value, and every reply, within `bound`. */
  lemma ExecuteWithin(store: Store, cmd: seq<seq<byte>>, bound: nat)
    requires ValuesWithin(store, bound) && bound >= |UNKNOWN_TEXT|
    requires forall i | 0 <= i < |cmd| :: |cmd[i]| <= bound
    ensures ValuesWithin(Execute(store, cmd).store, bound)
    ensures |Execute(store, cmd).resp.data| <= bound
  {
  }
}
