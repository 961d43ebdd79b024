// The intrusive chained hash table: an array of singly linked chains, one per
// slot, with a power-of-two slot count so that `hcode & mask` picks the slot.
module HashTable {
  import opened Bytes

  /** A 64-bit unsigned integer, as `uint64_t` and `size_t`. */
  newtype u64 = x: int | 0 <= x < 0x1_0000_0000_0000_0000

  /** A chain node embedded in a stored entry: its hash code and successor. */
  class HNode {
    var hcode: u64
    var next: HNode?

    constructor (hcode: u64)
      ensures this.hcode == hcode && next == null
    {
      this.hcode := hcode;
      next := null;
    }
  }

  /** Bitwise AND of two naturals, bit by bit from the least significant. */
  function BitAnd(a: nat, b: nat): nat
    decreases a
  {
    if a == 0 || b == 0 then 0
    else 2 * BitAnd(a / 2, b / 2) + (if a % 2 == 1 && b % 2 == 1 then 1 else 0)
  }

  /** Masking never yields more than the mask. */
  lemma {:induction false} BitAndBound(a: nat, b: nat)
    ensures BitAnd(a, b) <= b
    decreases a
  {
    if a != 0 && b != 0 {
      BitAndBound(a / 2, b / 2);
    }
  }

  /** Masking with `2^k - 1` keeps the low `k` bits: it is the remainder modulo `2^k`. */
  lemma {:induction false} BitAndLowMask(a: nat, k: nat)
    ensures BitAnd(a, Pow2(k) - 1) == a % Pow2(k)
    decreases a
  {
    if a != 0 && k != 0 {
      var m := Pow2(k - 1);
      assert (Pow2(k) - 1) / 2 == m - 1 && (Pow2(k) - 1) % 2 == 1;
      BitAndLowMask(a / 2, k - 1);
      DivModTwice(a, m);
    }
  }

  /** Splitting off the lowest bit before taking a remainder modulo `2 * m`. */
  lemma DivModTwice(a: nat, m: nat)
    requires m > 0
    ensures a % (2 * m) == 2 * ((a / 2) % m) + a % 2
  {
    var q := a / 2 / m;
    var r := a / 2 % m;
    assert a / 2 == m * q + r;
    assert a == (2 * m) * q + (2 * r + a % 2);
    ModUnique(a, 2 * m, q, 2 * r + a % 2);
  }

  function Pow2(k: nat): (p: nat)
    ensures p >= 1
  {
    if k == 0 then 1 else 2 * Pow2(k - 1)
  }

  /** The slot a hash code falls into under `mask`: `hcode & mask`, never above the mask. */
  function Slot(hcode: u64, mask: u64): (pos: nat)
    ensures pos <= mask as nat
  {
    BitAndBound(hcode as nat, mask as nat);
    BitAnd(hcode as nat, mask as nat)
  }

  /** True when `n` is a non-zero power of two, tested as `(n - 1) & n == 0`. */
  predicate IsPowerOfTwo(n: nat) {
    n > 0 && BitAnd(n - 1, n) == 0
  }

  /** Total number of nodes over all chains. */
  function TotalLength(chains: seq<seq<HNode>>): nat {
    if chains == [] then 0 else |chains[0]| + TotalLength(chains[1..])
  }

  /** Replacing one chain changes the total by the difference in its length. */
  lemma {:induction false} TotalLengthUpdate(chains: seq<seq<HNode>>, i: nat, c: seq<HNode>)
    requires i < |chains|
    ensures TotalLength(chains[i := c]) + |chains[i]| == TotalLength(chains) + |c|
  {
    if i > 0 {
      assert chains[i := c][1..] == chains[1..][i - 1 := c];
      TotalLengthUpdate(chains[1..], i - 1, c);
    } else {
      assert chains[i := c][1..] == chains[1..];
    }
  }

  /** A table of `n` empty chains holds no node. */
  lemma {:induction false} TotalLengthEmpty(chains: seq<seq<HNode>>)
    requires forall i | 0 <= i < |chains| :: chains[i] == []
    ensures TotalLength(chains) == 0
  {
    if chains != [] {
      TotalLengthEmpty(chains[1..]);
    }
  }

  /** Any number masked with itself is itself. */
  lemma {:induction false} BitAndSelf(a: nat)
    ensures BitAnd(a, a) == a
    decreases a
  {
    if a != 0 {
      BitAndSelf(a / 2);
    }
  }

  function Log2(n: nat): nat
    requires n > 0
  {
    if n == 1 then 0 else 1 + Log2(n / 2)
  }

  /** Every number the `(n - 1) & n == 0` test accepts is a power of two. */
  lemma {:induction false} PowerOfTwoIsPow2(n: nat)
    requires IsPowerOfTwo(n)
    ensures n == Pow2(Log2(n))
    decreases n
  {
    if n != 1 {
      if n % 2 == 1 {
        BitAndSelf(n / 2);
        assert false;
      }
      assert (n - 1) / 2 == n / 2 - 1;
      PowerOfTwoIsPow2(n / 2);
    }
  }

  /** Every power of two passes the `(n - 1) & n == 0` test. */
  lemma {:induction false} Pow2IsPowerOfTwo(k: nat)
    ensures IsPowerOfTwo(Pow2(k))
    decreases k
  {
    if k > 0 {
      var m := Pow2(k - 1);
      Pow2IsPowerOfTwo(k - 1);
      assert (2 * m - 1) / 2 == m - 1 && (2 * m - 1) % 2 == 1;
      assert (2 * m) / 2 == m && (2 * m) % 2 == 0;
    }
  }

  /** Under the mask of a power-of-two table, the slot is the hash code modulo the slot count. */
  lemma SlotIsRemainder(hcode: u64, mask: u64)
    requires IsPowerOfTwo(mask as nat + 1)
    ensures Slot(hcode, mask) == hcode as nat % (mask as nat + 1)
  {
    PowerOfTwoIsPow2(mask as nat + 1);
    BitAndLowMask(hcode as nat, Log2(mask as nat + 1));
  }

  /** `chain` is the list that starts at `head` and follows `next` to null. */
  ghost predicate IsChain(head: HNode?, chain: seq<HNode>)
    reads chain
  {
    (if chain == [] then head == null else head == chain[0]) &&
    forall k | 0 <= k < |chain| :: chain[k].next == if k + 1 < |chain| then chain[k + 1] else null
  }

  /** Each node of a chain points at the next one, the last at null. */
  lemma ChainNext(head: HNode?, chain: seq<HNode>, j: int)
    requires IsChain(head, chain) && 0 <= j < |chain|
    ensures chain[j].next == if j + 1 < |chain| then chain[j + 1] else null
  {
  }

  /** Pointing a node at the head of a chain makes it the head of a longer chain. */
  lemma ChainPush(node: HNode, head: HNode?, chain: seq<HNode>)
    requires IsChain(head, chain) && node.next == head
    ensures IsChain(node, [node] + chain)
  {
    var nc := [node] + chain;
    forall k | 0 <= k < |nc|
      ensures nc[k].next == if k + 1 < |nc| then nc[k + 1] else null
    {
      if k == 0 {
        if chain != [] {
          assert nc[1] == chain[0];
        }
      } else {
        assert nc[k] == chain[k - 1];
        ChainNext(head, chain, k - 1);
        if k < |chain| {
          assert nc[k + 1] == chain[k];
        }
      }
    }
    assert nc != [] && nc[0] == node;
    assert forall k | 0 <= k < |nc| :: nc[k].next == if k + 1 < |nc| then nc[k + 1] else null;
    assert IsChain(node, nc);
  }

  /** Every chained node is one of `nodes`. */
  ghost predicate AllIn(chains: seq<seq<HNode>>, nodes: set<HNode>) {
    forall i, k | 0 <= i < |chains| && 0 <= k < |chains[i]| :: chains[i][k] in nodes
  }

  /** Slot `i` heads chain `i`, linked through `next`. */
  ghost predicate AllLinked(heads: seq<HNode?>, chains: seq<seq<HNode>>, nodes: set<HNode>)
    requires AllIn(chains, nodes)
    reads nodes
  {
    |heads| == |chains| &&
    forall i | 0 <= i < |chains| :: IsChain(heads[i], chains[i])
  }

  /** Each node sits in the chain of the slot its hash code masks to. */
  ghost predicate AllPlaced(chains: seq<seq<HNode>>, nodes: set<HNode>, mask: u64)
    requires AllIn(chains, nodes)
    reads nodes
  {
    forall i, k | 0 <= i < |chains| && 0 <= k < |chains[i]| :: Slot(chains[i][k].hcode, mask) == i
  }

  /** The chains with `node` pushed on the front of chain `pos`. */
  function Pushed(chains: seq<seq<HNode>>, pos: nat, node: HNode): (r: seq<seq<HNode>>)
    requires pos < |chains|
    ensures |r| == |chains| && r[pos] == [node] + chains[pos]
    ensures forall i | 0 <= i < |chains| && i != pos :: r[i] == chains[i]
  {
    chains[pos := [node] + chains[pos]]
  }

  /** Pushing a node keeps every chained node among the stored ones, the new one included. */
  lemma PushIn(chains: seq<seq<HNode>>, nodes: set<HNode>, pos: nat, node: HNode)
    requires AllIn(chains, nodes) && pos < |chains|
    ensures AllIn(Pushed(chains, pos, node), nodes + {node})
  {
    var r: seq<seq<HNode>> := Pushed(chains, pos, node);
    forall i: int, k: int | 0 <= i < |r| && 0 <= k < |r[i]|
      ensures r[i][k] in nodes + {node}
    {
      if i == pos && k > 0 {
        assert r[i][k] == chains[i][k - 1];
      }
    }
  }

  /** Pushing a node whose hash code masks to `pos` onto chain `pos` keeps every node
      in its slot. */
  lemma PushPlaced(chains: seq<seq<HNode>>, nodes: set<HNode>, mask: u64, pos: nat, node: HNode)
    requires AllIn(chains, nodes) && pos < |chains|
    requires AllPlaced(chains, nodes, mask)
    requires Slot(node.hcode, mask) == pos
    requires AllIn(Pushed(chains, pos, node), nodes + {node})
    ensures AllPlaced(Pushed(chains, pos, node), nodes + {node}, mask)
  {
    var r: seq<seq<HNode>> := Pushed(chains, pos, node);
    forall i: int, k: int | 0 <= i < |r| && 0 <= k < |r[i]|
      ensures Slot(r[i][k].hcode, mask) == i
    {
      if i == pos && k > 0 {
        assert r[i][k] == chains[i][k - 1];
      }
    }
  }

  /** Pointing a new node at the head of slot `pos` and storing it there links it
      in front of chain `pos`. */
  lemma PushLinked(heads: seq<HNode?>, chains: seq<seq<HNode>>, nodes: set<HNode>, pos: nat, node: HNode)
    requires AllIn(chains, nodes) && pos < |chains|
    requires AllLinked(heads, chains, nodes)
    requires node.next == heads[pos]
    requires AllIn(Pushed(chains, pos, node), nodes + {node})
    ensures AllLinked(heads[pos := node], Pushed(chains, pos, node), nodes + {node})
  {
    ChainPush(node, heads[pos], chains[pos]);
    var r := Pushed(chains, pos, node);
    forall i | 0 <= i < |r|
      ensures IsChain(heads[pos := node][i], r[i])
    {
      if i != pos {
        assert IsChain(heads[i], chains[i]);
      }
    }
  }

  /** The hash table: slot heads in `tab`, `mask == |tab| - 1`, `size` nodes stored. */
  class HTab {
    var tab: array<HNode?>
    var mask: u64
    var size: nat

    /** The chain hanging off each slot, head first. */
    ghost var chains: seq<seq<HNode>>
    /** Every node stored in the table. */
    ghost var nodes: set<HNode>

    ghost predicate Valid()
      reads this, tab, nodes
    {
      tab.Length == mask as int + 1 &&
      IsPowerOfTwo(tab.Length) &&
      size == TotalLength(chains) &&
      AllIn(chains, nodes) &&
      AllLinked(tab[..], chains, nodes) &&
      AllPlaced(chains, nodes, mask)
    }

    /** h_init: `n` empty slots, `mask == n - 1`, nothing stored. */
    constructor Init(n: u64)
      requires IsPowerOfTwo(n as nat)
      ensures Valid() && fresh(tab)
      ensures tab.Length == n as int && mask == n - 1 && size == 0
      ensures forall i | 0 <= i < tab.Length :: tab[i] == null && chains[i] == []
      ensures nodes == {}
    {
      tab := new HNode?[n as int](_ => null);
      mask := n - 1;
      size := 0;
      chains := seq(n as int, _ => []);
      nodes := {};
      new;
      TotalLengthEmpty(chains);
    }

    /** h_insert: `node` becomes the head of the chain of slot `hcode & mask`,
        in front of the chain that was there; no other slot changes. */
    method Insert(node: HNode)
      requires Valid()
      requires node !in nodes
      modifies this, tab, node
      ensures Valid()
      ensures tab == old(tab) && mask == old(mask) && node.hcode == old(node.hcode)
      ensures size == old(size) + 1
      ensures nodes == old(nodes) + {node}
      ensures var pos := Slot(node.hcode, mask);
        pos < tab.Length && pos == node.hcode as nat % tab.Length &&
        tab[pos] == node && node.next == old(tab[pos]) &&
        chains == old(chains)[pos := [node] + old(chains)[pos]] &&
        forall i | 0 <= i < tab.Length && i != pos :: tab[i] == old(tab[i])
    {
      var pos := Slot(node.hcode, mask);
      SlotIsRemainder(node.hcode, mask);
      var next := tab[pos];
      node.next := next;
      tab[pos] := node;
      size := size + 1;
      TotalLengthUpdate(chains, pos, [node] + chains[pos]);
      PushIn(chains, nodes, pos, node);
      PushPlaced(chains, nodes, mask, pos, node);
      PushLinked(old(tab[..]), chains, nodes, pos, node);
      assert tab[..] == old(tab[..])[pos := node];
      chains := Pushed(chains, pos, node);
      nodes := nodes + {node};
    }
  }
}
