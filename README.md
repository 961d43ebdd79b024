# Key-value server core in Dafny

A verified model of the core of a small single-threaded key-value server that
speaks a length-prefixed binary protocol over non-blocking sockets:

- **Wire format** (`wire.dfy`, module `Wire`): reading a request body
  `nstr:u32 | (len:u32 | bytes) * nstr` with `read_u32`, `read_str` and
  `parse_req`, and writing a response `len:u32 | status:u32 | data` with
  `make_response`, `buf_append` and `buf_consume`. Integers are 32-bit
  little-endian (`bytes.dfy`, module `Bytes`).
- **Command dispatch** (`kv.dfy`, module `KeyValue`): `do_request` runs
  `get`, `set` and `del` against the global map `g_data`. The map is the field
  `data` of class `KvStore`. The pure function `Execute` specifies it.
- **Connection state machine** (`conn.dfy`, module `Connection`): class `Conn`
  holds the inbound and outbound buffers and the `want_read`, `want_write` and
  `want_close` flags. `try_one_request` frames one request off the front of the
  inbound buffer, checks the 32 MiB ceiling, parses it, dispatches it and
  appends the response. `handle_read` drains requests in a loop.
  `handle_write` drops the bytes the socket took. The read and write system
  calls are inputs: a `ReadResult` (bytes, end of stream as zero bytes, EAGAIN,
  failure) and a `WriteResult` (a count no larger than the buffer, EAGAIN,
  failure).
- **Hash table** (`hashtable.dfy`, module `HashTable`): `h_init` and
  `h_insert` over heap nodes. Slot heads live in an array and nodes are linked
  by `next`. Ghost `chains` record each slot's list so the invariants can be
  stated: every chain is the linked list from its slot head, every node sits in
  the slot of `hcode & mask`, and `size` counts all nodes.
- **FNV-1a hash** (`fnv.dfy`, module `Fnv`): the `str_hash` loop, proved equal
  to a left fold of one step. Each step XORs in a byte, then multiplies by the
  64-bit FNV prime. `bv64` arithmetic wraps modulo 2^64 the way `uint64_t` does.

Main results:
- `parse_req` accepts a body exactly when the body is the encoding of at most
  200 000 strings, and it then returns those strings (`ParseIff`).
- A body followed by trailing bytes is rejected, and so is any strict prefix of
  a body.
- Frames a client pipelines are answered in order (`DrainInOrder`): the
  responses are those of running the requests one after another against the
  store.
- A `get` after the latest `set` of the same key returns the stored value
  (`LastWriteWins`).
- `h_insert` keeps the hash-table invariant.
- The `str_hash` loop computes the FNV-1a fold.

Facts about the code that the model keeps:
- Responses are `status:u32` followed by raw bytes.
- A missing key answers status 2 (`RES_NX`) with "Key not found".
- A `get` that finds its key never assigns the status. The `Response` is freshly
  built with status 0, so the answer is `RES_OK`.
- The hash table has only `h_init` and `h_insert`.

## Model

| member | source | states |
|---|---|---|
| `Bytes.ReadWriteU32` | 03/server.cpp:97-106 | decoding the four little-endian bytes written for `x < 2^32` gives back `x` |
| `Bytes.WriteReadU32` | 03/server.cpp:103 | any four bytes are the encoding of the integer they decode to, so the u32 codec is a bijection |
| `Fnv.StrHash` | 03/common.h:12-19 | the loop returns `Hash(data)`, the left fold of the XOR-then-multiply step from the offset basis; the empty input gives the offset basis 0xcbf29ce484222325 |
| `Fnv.HashAppend` | 03/common.h:14-17 | hashing `a + b` equals continuing the hash of `a` over `b` byte by byte, so the hash is a left fold and can be computed incrementally |
| `Fnv.HashIsFold` | 03/common.h:13-17 | folding the step over the bytes first-to-last from the offset basis equals `Hash`, the last-byte-outermost definition |
| `HashTable.BitAndBound` | 03/hashtable.cpp:20 | `a & b <= b` for every pair: masking never exceeds the mask |
| `HashTable.Slot` | 03/hashtable.cpp:20 | the slot `hcode & mask` is at most `mask`, so it indexes an array of `mask + 1` slots |
| `HashTable.BitAndLowMask` | 03/hashtable.cpp:20 | masking with `2^k - 1` equals reducing modulo `2^k` |
| `HashTable.PowerOfTwoIsPow2` | 03/hashtable.cpp:8-11 | a positive `n` with `(n - 1) & n == 0` is a power of two |
| `HashTable.Pow2IsPowerOfTwo` | 03/hashtable.cpp:8-11 | every power of two passes the `(n - 1) & n == 0` test, so with `PowerOfTwoIsPow2` the test accepts exactly the powers of two |
| `HashTable.SlotIsRemainder` | 03/hashtable.cpp:20 | with a power-of-two slot count, the slot is the hash code modulo the slot count |
| `HashTable.TotalLengthUpdate` | 03/hashtable.cpp:24 | replacing one chain changes the total node count by the difference of the chain lengths |
| `HashTable.ChainPush` | 03/hashtable.cpp:21-23 | linking a node in front of a slot's list (its `next` is the old head) gives the list with that node first |
| `HashTable.HTab.Init` | 03/hashtable.cpp:9-15 | requires a power of two `n`; gives `n` empty slots, `mask == n - 1`, `size == 0`, and establishes the table invariant |
| `HashTable.HTab.Insert` | 03/hashtable.cpp:18-25 | the node becomes the head of slot `hcode & mask` (in bounds, equal to `hcode mod n`) with the old head as `next`; other slots are unchanged; `size` grows by one; the node's slot's chain gains it at the front and the invariant is kept: every slot head starts the linked list of its chain, every node sits in the slot `hcode & mask`, and `size` counts the nodes of all chains |
| `Wire.ReadU32` | 03/server.cpp:97-106 | succeeds exactly when four bytes remain; then yields their little-endian value and advances the cursor by 4; on failure the cursor does not move |
| `Wire.ReadStr` | 03/server.cpp:108-117 | succeeds exactly when `n` bytes remain; then yields them and advances the cursor by `n`; on failure the cursor does not move |
| `Wire.ReadArgs` | 03/server.cpp:133-145 | a successful read of `n` strings yields exactly `n` strings and ends at a cursor within the data |
| `Wire.ParseReq` | 03/server.cpp:120-151 | returns 0 or -1; 0 exactly when the specification `Parse` accepts, with `out` its strings, which number exactly the declared `nstr <= 200000`; -1 whenever `nstr > k_max_args` |
| `Wire.ReadArgsSound` | 03/server.cpp:133-145 | the bytes a successful read consumed are exactly the encoding of the strings it returned |
| `Wire.ReadArgsComplete` | 03/server.cpp:133-145 | reading the encoding of a list of strings, whatever surrounds it, returns that list and stops right after it |
| `Wire.ParseSound` | 03/server.cpp:120-151 | an accepted body is exactly the encoding of the returned strings (count, then length-prefixed strings, nothing after) |
| `Wire.ParseEncode` | 03/server.cpp:120-151 | round trip: the test client's encoding (`pack('<I', n)`, then `pack('<I', len) + bytes` per string) of at most 200000 strings parses back to the same strings |
| `Wire.ParseIff` | 03/server.cpp:120-151 | `parse_req` accepts `data` with result `args` if and only if `data` is the encoding of `args` and `args` has at most 200000 strings |
| `Wire.ParseRejectsTrailing` | 03/server.cpp:146-149 | any non-empty bytes after an accepted body make the request fail (trailing garbage) |
| `Wire.ParseRejectsTruncated` | 03/server.cpp:97-117 | every strict prefix of an accepted body fails: a field that would read past the end yields -1 |
| `Wire.ParseArgsWithin` | 03/server.cpp:108-117 | no parsed string is longer than the body it came from |
| `Wire.ResponseLength` | 03/server.cpp:215 | the header `4 + (uint32_t)size` is below 2^32 and equals `4 + size` whenever that does not wrap |
| `Wire.BufAppend` | 03/server.cpp:49-52 | the result keeps the old buffer as its prefix and ends with exactly the appended bytes |
| `Wire.BufConsume` | 03/server.cpp:55-58 | the result is the buffer without its first `n` bytes: `buf == buf[..n] + result` |
| `Wire.MakeResponse` | 03/server.cpp:213-219 | appends exactly `8 + |data|` bytes after the untouched old contents: `u32le(4 + |data|)` (mod 2^32), `u32le(status)`, then `data` |
| `Wire.ResponseRoundTrip` | 03/server.cpp:213-219 | a reader taking the length header and that many bytes recovers exactly the status and the payload |
| `KeyValue.Execute` | 03/server.cpp:154-210 | every response carries one of the three status codes RES_OK, RES_ERR, RES_NX |
| `KeyValue.KvStore.DoRequest` | 03/server.cpp:172-210 | the new map and the response are those of `Execute` on the old map |
| `KeyValue.KvStore.constructor` | 03/server.cpp:169 | the global map starts empty |
| `KeyValue.SetStores` | 03/server.cpp:186-191 | `set k v` stores `v` under `k` and answers RES_OK "OK" |
| `KeyValue.GetAnswers` | 03/server.cpp:174-185 | `get k` leaves the map unchanged and answers the stored bytes if `k` is present, otherwise RES_NX "Key not found" |
| `KeyValue.DelRemoves` | 03/server.cpp:192-204 | `del k` leaves `k` absent and answers RES_OK if it was present, otherwise RES_NX |
| `KeyValue.UnknownIsError` | 03/server.cpp:205-209 | any other command shape leaves the map unchanged and answers RES_ERR with the error text |
| `KeyValue.OtherKeysUnchanged` | 03/server.cpp:172-210 | a command changes no key except the one a well-shaped `set` or `del` names |
| `KeyValue.RunAppend` | 03/server.cpp:290-292 | processing the commands of `a` and then those of `b` is processing `a + b`: states chain and responses concatenate |
| `KeyValue.RunKeepsKey` | 03/server.cpp:172-210 | a sequence of commands none of which sets or deletes `k` leaves the entry of `k` as it was |
| `KeyValue.LastWriteWins` | 03/server.cpp:172-210 | after `set k v`, a later `get k` answers `v` if no command in between sets or deletes `k`; after `del k` it answers "Key not found" |
| `KeyValue.ExecuteWithin` | 03/server.cpp:172-210 | commands with strings of at most `bound` bytes keep every stored value and every reply within `bound` |
| `Connection.NextFrame` | 03/server.cpp:225-251 | a request found at the front of the buffer spans at least the 4 header bytes and no more than the buffer |
| `Connection.FrameRoundTrip` | 03/server.cpp:225-246 | a client frame (`u32le(len)` then the body) of a request within both limits, followed by anything, is recognised as that request spanning exactly the frame |
| `Connection.FrameSound` | 03/server.cpp:225-246 | a recognised request is a frame a client could have sent: within both limits, and its bytes are exactly that frame |
| `Connection.FrameArgsWithin` | 03/server.cpp:229-246 | every string of a framed request is at most k_max_msg bytes long |
| `Connection.ResponseHeaderExact` | 03/server.cpp:215 | with stored values within k_max_msg, the values stay within it after a framed request, and the response header is exactly `4 + |data|` (no 32-bit wrap) |
| `Connection.Drain` | 03/server.cpp:290-292 | the drain loop stops only when no whole request is at the front: at an incomplete frame (keep the connection) or at a bad or over-long frame (close) |
| `Connection.DrainKeepsSuffix` | 03/server.cpp:258-259 | draining removes bytes only from the front of the inbound buffer: what remains is a suffix of it |
| `Connection.DrainKeepsPrefix` | 03/server.cpp:254-256 | draining only appends to the outbound buffer: the old outbound bytes stay its prefix |
| `Connection.DrainStep` | 03/server.cpp:254-259 | draining past one whole frame answers that request and continues with the bytes after it |
| `Connection.DrainInOrder` | 03/server.cpp:290-292 | pipelined frames followed by an incomplete tail are answered in arrival order: the store and responses are those of running the requests in sequence, and only the tail remains |
| `Connection.Conn.Accepted` | 03/server.cpp:89-94 | a new connection has empty buffers, wants to read, and is in the reading state |
| `Connection.Conn.TryOneRequest` | 03/server.cpp:222-261 | fewer than 4 bytes, or a body not yet complete: false and nothing changes; header over 32 MiB or a body parse_req rejects: false, `want_close` set, buffers and store untouched; otherwise true, exactly the first `4 + len` inbound bytes removed, exactly one response appended to the outbound bytes, the store updated by the command |
| `Connection.Conn.HandleRead` | 03/server.cpp:264-300 | EAGAIN changes nothing; a failure or end of stream sets `want_close` and nothing else; received bytes are appended and drained as `Drain` says; non-empty output switches to `want_write` and off `want_read`; the reading/writing invariant is kept |
| `Connection.Conn.HandleWrite` | 03/server.cpp:303-327 | EAGAIN changes nothing; a failure sets `want_close`; `rv` bytes are removed exactly from the front of the outbound buffer; an emptied buffer switches back to reading; the reading/writing invariant is kept |

## Left out

- The event loop in `main` is not modelled: socket creation, `bind`/`listen`, `poll`, the `fd2conn` table, `close` and `delete`. These are operating-system I/O.
- `handle_accept` and `fd_set_nb` are not modelled beyond what `Conn.Accepted` states: an accepted connection starts in the reading state.
- The logging helpers `msg`, `msg_errno` and `die` are left out: they only write diagnostics or exit the process.
- The `read` and `write` system calls are parameters. `HandleRead` requires at most 4096 received bytes, the size of its stack buffer. `HandleWrite` requires a write count no larger than the buffer, which is what `write` guarantees.
- The `fd` field of `Conn` is left out. Nothing in the model uses it.
- The client program and the Python test drivers are not modelled. The test client's request encoding appears as `Wire.EncodeReq` and `Connection.EncodeFrame`.
- The sorted-set interface in `zset.h` is left out: it has declarations only, and its bodies and the tree are not part of this model.
- The TTL commands the test drivers send (`pexpire`, `pttl`, 03/test_ttl.py:32-47) and the tagged replies they expect are not implemented: `do_request` handles only `get`, `set` and `del` and answers anything else with `RES_ERR`, as `KeyValue.UnknownIsError` states.
- Hash-table lookup, deletion and resizing are left out: only `h_init` and `h_insert` exist in the source.
- The host is taken to be little-endian: the source copies 4-byte fields with `memcpy` in host byte order, and the model fixes that order as least significant byte first, which is the order the test client packs.
- `container_of` is left out: it is raw pointer arithmetic.
- `str_hash` is not wired to the hash table: nothing in the source computes a node's `hcode` from it.
- `HashTable.HTab.Insert` requires the node not to be in the table already. The source silently assumes this.
- HashTable: hash codes and the mask are integers below 2^64 (`u64`), and `&` is the bitwise AND defined on naturals (`BitAnd`). Bit-vector-to-integer conversions are not used there.
- `HashTable.HTab.Insert` counts `size` as an unbounded natural: `size_t` overflow is not modelled, since it would need 2^64 nodes.
- `Wire.ParseReq`: on failure the model leaves `out` as the source does, a partial list that may end with an empty string. The contract says nothing about it, because the caller discards it.
