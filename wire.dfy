// The binary request and response formats of the server.
//   request body:  nstr:u32 | (len:u32 | bytes) * nstr
//   response:      len:u32 | status:u32 | data      (len counts status and data)
// All integers are 32-bit little-endian.
module Wire {
  import opened Bytes

  /** k_max_msg: the largest request body a frame header may announce (32 MiB). */
  const MAX_MSG: nat := 32 * 0x10_0000
  /** k_max_args: the most strings one request may carry. */
  const MAX_ARGS: nat := 200_000

  datatype Option<T> = None | Some(value: T)

  // ---------------------------------------------------------------- requests

  /** Strings the format can carry: each length fits the u32 length field. */
  predicate Encodable(args: seq<seq<byte>>) {
    |args| < U32_LIMIT && forall i | 0 <= i < |args| :: |args[i]| < U32_LIMIT
  }

  /** The argument strings laid out one after the other, each behind its length. */
  function EncodeArgs(args: seq<seq<byte>>): seq<byte>
    requires Encodable(args)
  {
    if args == [] then [] else U32Le(|args[0]|) + args[0] + EncodeArgs(args[1..])
  }

  /** A request body, as a client builds it: the string count, then the strings. */
  function EncodeReq(args: seq<seq<byte>>): seq<byte>
    requires Encodable(args)
  {
    U32Le(|args|) + EncodeArgs(args)
  }

  /** The reading of `n` length-prefixed strings starting at `cur`: the strings
      and the cursor after the last one, or None when a field runs past the end. */
  function ReadArgs(data: seq<byte>, cur: nat, n: nat): (r: Option<(seq<seq<byte>>, nat)>)
    requires cur <= |data|
    ensures r.Some? ==> |r.value.0| == n && cur <= r.value.1 <= |data|
    decreases n
  {
    if n == 0 then Some(([], cur))
    else if cur + 4 > |data| then None
    else
      var len := ReadU32Le(data[cur..cur + 4]);
      if cur + 4 + len > |data| then None
      else match ReadArgs(data, cur + 4 + len, n - 1)
        case None => None
        case Some((rest, end)) => Some(([data[cur + 4..cur + 4 + len]] + rest, end))
  }

  /** What parse_req accepts: a count no larger than MAX_ARGS, that many strings,
      and nothing after them. */
  function Parse(data: seq<byte>): Option<seq<seq<byte>>> {
    if |data| < 4 then None
    else
      var nstr := ReadU32Le(data[..4]);
      if nstr > MAX_ARGS then None
      else match ReadArgs(data, 4, nstr)
        case None => None
        case Some((args, end)) => if end == |data| then Some(args) else None
  }

  /** read_u32: take a u32 at the cursor if four bytes remain; on failure the
      cursor stays where it was. */
  method ReadU32(data: seq<byte>, cur: nat) returns (ok: bool, cur': nat, x: nat)
    requires cur <= |data|
    ensures ok <==> cur + 4 <= |data|
    ensures cur' <= |data|
    ensures ok ==> cur' == cur + 4 && x == ReadU32Le(data[cur..cur + 4]) && x < U32_LIMIT
    ensures !ok ==> cur' == cur
  {
    if cur + 4 > |data| {
      return false, cur, 0;
    }
    x := ReadU32Le(data[cur..cur + 4]);
    return true, cur + 4, x;
  }

  /** read_str: take `n` bytes at the cursor if that many remain; on failure the
      cursor stays where it was. */
  method ReadStr(data: seq<byte>, cur: nat, n: nat) returns (ok: bool, cur': nat, s: seq<byte>)
    requires cur <= |data|
    ensures ok <==> cur + n <= |data|
    ensures cur' <= |data|
    ensures ok ==> cur' == cur + n && s == data[cur..cur + n] && |s| == n
    ensures !ok ==> cur' == cur
  {
    if cur + n > |data| {
      return false, cur, [];
    }
    s := data[cur..cur + n];
    return true, cur + n, s;
  }

  /** parse_req: 0 and the strings when `data` is one well-formed request body,
      -1 otherwise. */
  method ParseReq(data: seq<byte>) returns (rc: int, out: seq<seq<byte>>)
    ensures rc == 0 || rc == -1
    ensures rc == 0 <==> Parse(data).Some?
    ensures rc == 0 ==> out == Parse(data).value
    ensures |data| >= 4 && ReadU32Le(data[..4]) > MAX_ARGS ==> rc == -1
    ensures rc == 0 ==> |out| == ReadU32Le(data[..4]) && |out| <= MAX_ARGS
  {
    out := [];
    var ok, cur, nstr := ReadU32(data, 0);
    if !ok {
      return -1, out;
    }
    assert data[0..4] == data[..4];
    if nstr > MAX_ARGS {
      return -1, out;
    }
    ghost var whole := ReadArgs(data, 4, nstr);
    ParseByArgs(data, whole);
    PrependNothing(whole);
    while |out| < nstr
      invariant 4 <= cur <= |data| && |out| <= nstr
      invariant whole == Prepend(out, ReadArgs(data, cur, nstr - |out|))
      decreases nstr - |out|
    {
      ghost var start := cur;
      ReadArgsAdvance(data, whole, out, start, nstr - |out|);
      var len;
      ok, cur, len := ReadU32(data, cur);
      if !ok {
        return -1, out;
      }
      out := out + [[]];
      var s;
      ok, cur, s := ReadStr(data, cur, len);
      if !ok {
        return -1, out;
      }
      out := out[..|out| - 1] + [s];
    }
    assert out + [] == out;
    assert whole == Some((out, cur as nat));
    if cur != |data| {
      return -1, out;
    }
    return 0, out;
  }

  /** Parse in terms of the reading of the announced number of strings. */
  lemma ParseByArgs(data: seq<byte>, whole: Option<(seq<seq<byte>>, nat)>)
    requires |data| >= 4 && ReadU32Le(data[..4]) <= MAX_ARGS
    requires whole == ReadArgs(data, 4, ReadU32Le(data[..4]))
    ensures Parse(data).Some? <==> whole.Some? && whole.value.1 == |data|
    ensures Parse(data).Some? ==> Parse(data).value == whole.value.0
  {
  }

  /** One step of the reading behind parse_req's loop: with `prefix` read so far,
      the next string is taken at `start`, or the whole reading fails. */
  lemma ReadArgsAdvance(data: seq<byte>, whole: Option<(seq<seq<byte>>, nat)>,
                        prefix: seq<seq<byte>>, start: nat, k: nat)
    requires start <= |data| && k > 0 && whole == Prepend(prefix, ReadArgs(data, start, k))
    ensures start + 4 > |data| ==> whole == None
    ensures start + 4 <= |data| ==>
      var next := start + 4 + ReadU32Le(data[start..start + 4]);
      if next > |data| then whole == None
      else whole == Prepend(prefix + [data[start + 4..next]], ReadArgs(data, next, k - 1))
  {
    ReadArgsStep(data, start, k);
    if start + 4 <= |data| {
      var next := start + 4 + ReadU32Le(data[start..start + 4]);
      if next <= |data| {
        PrependTwice(prefix, [data[start + 4..next]], ReadArgs(data, next, k - 1));
      }
    }
  }

  /** One step of ReadArgs: a string's length field and bytes, then the rest. */
  lemma ReadArgsStep(data: seq<byte>, cur: nat, n: nat)
    requires cur <= |data| && n > 0
    ensures cur + 4 > |data| ==> ReadArgs(data, cur, n) == None
    ensures cur + 4 <= |data| ==>
      var next := cur + 4 + ReadU32Le(data[cur..cur + 4]);
      if next > |data| then ReadArgs(data, cur, n) == None
      else ReadArgs(data, cur, n) == Prepend([data[cur + 4..next]], ReadArgs(data, next, n - 1))
  {
  }

  /** Put `prefix` in front of the strings of a successful reading. */
  function Prepend(prefix: seq<seq<byte>>, r: Option<(seq<seq<byte>>, nat)>): Option<(seq<seq<byte>>, nat)> {
    match r
    case None => None
    case Some((args, end)) => Some((prefix + args, end))
  }

  lemma PrependNothing(r: Option<(seq<seq<byte>>, nat)>)
    ensures Prepend([], r) == r
  {
    if r.Some? {
      assert [] + r.value.0 == r.value.0;
    }
  }

  lemma PrependTwice(a: seq<seq<byte>>, b: seq<seq<byte>>, r: Option<(seq<seq<byte>>, nat)>)
    ensures Prepend(a, Prepend(b, r)) == Prepend(a + b, r)
  {
    if r.Some? {
      assert a + (b + r.value.0) == (a + b) + r.value.0;
    }
  }

  // --------------------------------------------------------- request lemmas

  /** A successful reading of `n` strings consumed exactly their encoding. */
  lemma {:induction false} ReadArgsSound(data: seq<byte>, cur: nat, n: nat)
    requires cur <= |data| && n < U32_LIMIT && ReadArgs(data, cur, n).Some?
    ensures Encodable(ReadArgs(data, cur, n).value.0)
    ensures data[cur..ReadArgs(data, cur, n).value.1] == EncodeArgs(ReadArgs(data, cur, n).value.0)
    decreases n
  {
    if n > 0 {
      ReadArgsStep(data, cur, n);
      var head := data[cur..cur + 4];
      var next := cur + 4 + ReadU32Le(head);
      var a := data[cur + 4..next];
      var r := ReadArgs(data, next, n - 1).value;
      ReadArgsSound(data, next, n - 1);
      WriteReadU32(head);
      EncodeArgsCons(a, r.0);
      SliceJoin(data, cur, cur + 4, next, r.1);
    }
  }

  /** The encoding of one more string: its length, its bytes, then the others. */
  lemma EncodeArgsCons(a: seq<byte>, rest: seq<seq<byte>>)
    requires Encodable(rest) && |a| < U32_LIMIT && |rest| + 1 < U32_LIMIT
    ensures Encodable([a] + rest)
    ensures EncodeArgs([a] + rest) == U32Le(|a|) + a + EncodeArgs(rest)
  {
    assert ([a] + rest)[0] == a && ([a] + rest)[1..] == rest;
  }

  /** Three adjacent slices make up the slice that spans them. */
  lemma SliceJoin(data: seq<byte>, i: nat, j: nat, k: nat, l: nat)
    requires i <= j <= k <= l <= |data|
    ensures data[i..l] == data[i..j] + data[j..k] + data[k..l]
  {
  }

  /** Reading at a cursor where the encoding of `args` lies yields `args` and
      stops right after that encoding. */
  lemma {:induction false} ReadArgsComplete(data: seq<byte>, cur: nat, args: seq<seq<byte>>)
    requires Encodable(args)
    requires cur + |EncodeArgs(args)| <= |data| && data[cur..cur + |EncodeArgs(args)|] == EncodeArgs(args)
    ensures ReadArgs(data, cur, |args|) == Some((args, cur + |EncodeArgs(args)|))
    decreases |args|
  {
    if args != [] {
      var a, more := args[0], args[1..];
      assert args == [a] + more;
      EncodeArgsCons(a, more);
      var head, rest := U32Le(|a|), EncodeArgs(more);
      assert EncodeArgs(args) == head + a + rest;
      SliceSplit(data, cur, head + a, rest);
      SliceSplit(data, cur, head, a);
      var next, end := cur + 4 + |a|, cur + |EncodeArgs(args)|;
      ReadArgsComplete(data, next, more);
      assert ReadArgs(data, next, |args| - 1) == Some((more, end));
      ReadArgsCons(data, cur, |args|, a, more, end);
      assert [a] + more == args;
    } else {
      assert ReadArgs(data, cur, 0) == Some(([], cur));
    }
  }

  /** A length field followed by that many bytes, in front of a reading of
      `n - 1` strings, reads as `n` strings. */
  lemma ReadArgsCons(data: seq<byte>, cur: nat, n: nat, a: seq<byte>, more: seq<seq<byte>>, end: nat)
    requires n > 0 && |a| < U32_LIMIT && cur + 4 + |a| <= |data|
    requires data[cur..cur + 4] == U32Le(|a|) && data[cur + 4..cur + 4 + |a|] == a
    requires ReadArgs(data, cur + 4 + |a|, n - 1) == Some((more, end))
    ensures ReadArgs(data, cur, n) == Some(([a] + more, end))
  {
    ReadWriteU32(|a|);
  }

  /** Where `x + y` lies in `data`, `x` lies first and `y` right after it. */
  lemma SliceSplit(data: seq<byte>, cur: nat, x: seq<byte>, y: seq<byte>)
    requires cur + |x| + |y| <= |data| && data[cur..cur + |x| + |y|] == x + y
    ensures data[cur..cur + |x|] == x && data[cur + |x|..cur + |x| + |y|] == y
  {
    assert data[cur..cur + |x|] == data[cur..cur + |x| + |y|][..|x|];
    assert data[cur + |x|..cur + |x| + |y|] == data[cur..cur + |x| + |y|][|x|..];
  }

  /** Reading depends only on the bytes it consumes: the same prefix reads the same. */
  lemma {:induction false} ReadArgsPrefix(data: seq<byte>, data': seq<byte>, cur: nat, n: nat)
    requires cur <= |data| && ReadArgs(data, cur, n).Some?
    requires ReadArgs(data, cur, n).value.1 <= |data'|
    requires data[..ReadArgs(data, cur, n).value.1] == data'[..ReadArgs(data, cur, n).value.1]
    ensures cur <= |data'| && ReadArgs(data', cur, n) == ReadArgs(data, cur, n)
    decreases n
  {
    var end := ReadArgs(data, cur, n).value.1;
    if n > 0 {
      var len := ReadU32Le(data[cur..cur + 4]);
      var next := cur + 4 + len;
      assert ReadArgs(data, next, n - 1).Some? && ReadArgs(data, next, n - 1).value.1 == end;
      SamePrefixSlice(data, data', end, cur, cur + 4);
      SamePrefixSlice(data, data', end, cur + 4, next);
      ReadArgsPrefix(data, data', next, n - 1);
    }
  }

  /** Two sequences that agree up to `end` agree on every slice below it. */
  lemma SamePrefixSlice(d: seq<byte>, d': seq<byte>, end: nat, i: nat, j: nat)
    requires i <= j <= end <= |d| && end <= |d'| && d[..end] == d'[..end]
    ensures d[i..j] == d'[i..j]
  {
    assert d[i..j] == d[..end][i..j];
    assert d'[i..j] == d'[..end][i..j];
  }

  /** Whatever parse_req accepts is exactly the encoding of what it returns. */
  lemma ParseSound(data: seq<byte>)
    requires Parse(data).Some?
    ensures var args := Parse(data).value;
      |args| <= MAX_ARGS && Encodable(args) && data == EncodeReq(args)
  {
    var nstr := ReadU32Le(data[..4]);
    ReadArgsSound(data, 4, nstr);
    WriteReadU32(data[..4]);
    assert data == data[..4] + data[4..|data|];
  }

  /** No string of an accepted request is longer than the request body. */
  lemma ParseArgsWithin(data: seq<byte>)
    requires Parse(data).Some?
    ensures var args := Parse(data).value;
      forall i | 0 <= i < |args| :: |args[i]| <= |data|
  {
    ReadArgsWithin(data, 4, ReadU32Le(data[..4]));
  }

  lemma {:induction false} ReadArgsWithin(data: seq<byte>, cur: nat, n: nat)
    requires cur <= |data| && ReadArgs(data, cur, n).Some?
    ensures var args := ReadArgs(data, cur, n).value.0;
      forall i | 0 <= i < |args| :: |args[i]| <= |data| - cur
    decreases n
  {
    if n > 0 {
      var len := ReadU32Le(data[cur..cur + 4]);
      ReadArgsWithin(data, cur + 4 + len, n - 1);
    }
  }

  /** Round trip: parse_req accepts the encoding of any request of at most
      MAX_ARGS strings and gives back those strings. */
  lemma ParseEncode(args: seq<seq<byte>>)
    requires Encodable(args) && |args| <= MAX_ARGS
    ensures Parse(EncodeReq(args)) == Some(args)
  {
    var data := EncodeReq(args);
    ReadWriteU32(|args|);
    assert data[..4] == U32Le(|args|);
    assert data[4..4 + |EncodeArgs(args)|] == EncodeArgs(args);
    ReadArgsComplete(data, 4, args);
  }

  /** parse_req accepts `data` exactly when it is the encoding of some request
      of at most MAX_ARGS strings, and then returns those strings. */
  lemma ParseIff(data: seq<byte>, args: seq<seq<byte>>)
    ensures Parse(data) == Some(args) <==> Encodable(args) && |args| <= MAX_ARGS && data == EncodeReq(args)
  {
    if Parse(data) == Some(args) {
      ParseSound(data);
    }
    if Encodable(args) && |args| <= MAX_ARGS && data == EncodeReq(args) {
      ParseEncode(args);
    }
  }

  /** Bytes after a well-formed request are trailing garbage: rejected. */
  lemma ParseRejectsTrailing(data: seq<byte>, extra: seq<byte>)
    requires Parse(data).Some? && extra != []
    ensures Parse(data + extra) == None
  {
    var nstr := ReadU32Le(data[..4]);
    assert (data + extra)[..4] == data[..4];
    var end := ReadArgs(data, 4, nstr).value.1;
    assert (data + extra)[..end] == data[..end];
    ReadArgsPrefix(data, data + extra, 4, nstr);
  }

  /** A strict prefix of a well-formed request is truncated: rejected. */
  lemma ParseRejectsTruncated(data: seq<byte>, k: nat)
    requires Parse(data).Some? && k < |data|
    ensures Parse(data[..k]) == None
  {
    if Parse(data[..k]).Some? {
      var short := data[..k];
      var nstr := ReadU32Le(short[..4]);
      assert short[..4] == data[..4];
      var end := ReadArgs(short, 4, nstr).value.1;
      assert end == k;
      assert short[..end] == data[..end];
      ReadArgsPrefix(short, data, 4, nstr);
      assert false;
    }
  }

  // --------------------------------------------------------------- responses

  /** Response status codes. */
  const RES_OK: nat := 0
  const RES_ERR: nat := 1
  const RES_NX: nat := 2

  /** A 32-bit unsigned integer. */
  type u32 = x: nat | x < U32_LIMIT

  /** A response before serialisation: a status code and its payload. */
  datatype Response = Response(status: u32, data: seq<byte>)

  /** The length header make_response writes: `4 + (uint32_t)|data|`, in
      32-bit unsigned arithmetic. */
  function ResponseLength(resp: Response): (n: nat)
    ensures n < U32_LIMIT
    ensures |resp.data| + 4 < U32_LIMIT ==> n == 4 + |resp.data|
  {
    (4 + |resp.data| % U32_LIMIT) % U32_LIMIT
  }

  /** buf_append: the buffer followed by the new bytes. */
  function BufAppend(buf: seq<byte>, data: seq<byte>): (r: seq<byte>)
    ensures |r| == |buf| + |data| && r[..|buf|] == buf && r[|buf|..] == data
  {
    buf + data
  }

  /** buf_consume: the buffer with its first `n` bytes removed. */
  function BufConsume(buf: seq<byte>, n: nat): (r: seq<byte>)
    requires n <= |buf|
    ensures |r| == |buf| - n && buf == buf[..n] + r
  {
    buf[n..]
  }

  /** The bytes of one serialised response. */
  function EncodeResponse(resp: Response): (r: seq<byte>) {
    U32Le(ResponseLength(resp)) + U32Le(resp.status) + resp.data
  }

  /** make_response: append the length, the status and the payload to `out`. */
  method MakeResponse(resp: Response, out: seq<byte>) returns (out': seq<byte>)
    ensures |out'| == |out| + 8 + |resp.data|
    ensures out'[..|out|] == out
    ensures ReadU32Le(out'[|out|..]) == ResponseLength(resp)
    ensures ReadU32Le(out'[|out| + 4..]) == resp.status
    ensures out'[|out| + 8..] == resp.data
    ensures out' == out + EncodeResponse(resp)
  {
    var len := ResponseLength(resp);
    out' := BufAppend(out, U32Le(len));
    out' := BufAppend(out', U32Le(resp.status));
    out' := BufAppend(out', resp.data);
    ReadWriteU32(len);
    ReadWriteU32(resp.status);
    assert out'[|out|..][..4] == U32Le(len);
    assert out'[|out| + 4..][..4] == U32Le(resp.status);
  }

  /** A reader that takes the length header and then that many bytes recovers
      exactly the status and payload, as long as the payload is not so long that
      the 32-bit header wraps. */
  lemma ResponseRoundTrip(resp: Response, rest: seq<byte>)
    requires |resp.data| + 4 < U32_LIMIT
    ensures var bytes := EncodeResponse(resp) + rest;
      var len := ReadU32Le(bytes);
      4 + len <= |bytes| && len >= 4 &&
      ReadU32Le(bytes[4..]) == resp.status && bytes[8..4 + len] == resp.data
  {
    var len := ResponseLength(resp);
    var bytes := EncodeResponse(resp) + rest;
    ReadWriteU32(len);
    ReadWriteU32(resp.status);
    assert bytes[..4] == U32Le(len);
    assert bytes[4..][..4] == U32Le(resp.status);
    assert bytes[8..4 + len] == resp.data;
  }
}
