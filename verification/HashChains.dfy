/**
  The hash chain over a list of felts, from the last one to the first. The loop tests its end only after a
  turn, and counts in the field: how many turns it takes decides whether the program returns at all. The
  chain does not hash the length of its list.
*/
module HashChains {
  import opened Arithmetic
  import opened HashTrees
  import StarkPrime

  const P := StarkPrime.P

  /** The pair hash folded over the felts, starting with the last one. */
  function Chain(H: Hash, data: seq<int>): int {
    if data == [] then 0 else if |data| == 1 then data[0] else H(data[0], Chain(H, data[1..]))
  }

  /** The memory at `n` addresses from `start` on, which are felts. */
  function Read(memory: nat -> int, start: int, n: nat): (data: seq<int>)
    ensures |data| == n
  {
    seq(n, i requires 0 <= i < n => memory((start + i) % P))
  }

  // ------------------------------------------------------------------------
  // How long the loop runs
  // ------------------------------------------------------------------------

  /** The loop over `length` felts may stop after `k` turns. */
  predicate StopsAfter(length: nat, k: nat) {
    k >= 1 && (length - 1 - k) % P == 0
  }

  function Turns(length: nat): nat {
    1 + (length - 2) % P
  }

  /** The loop stops at the first turn that it may stop after. */
  lemma TurnsIsLeast(length: nat)
    ensures StopsAfter(length, Turns(length))
    ensures forall k: nat :: StopsAfter(length, k) ==> Turns(length) <= k
  {
    var q, r := (length - 2) / P, (length - 2) % P;
    QuotientIs(length - 1 - Turns(length), P, q, 0);
    forall k: nat | StopsAfter(length, k) ensures r + 1 <= k {
      if k <= r {
        var j := (length - 1 - k) / P;
        assert length - 2 == j * P + (k - 1);
        QuotientIs(length - 2, P, j, k - 1);
      }
    }
  }

  /** The loop reads nothing but the felts it is given. */
  predicate Returns(length: nat) {
    Turns(length) < length
  }

  /** The loop stays within its felts if and only if there are at least two; then it takes each of them once. */
  lemma ReturnsExactly(length: nat)
    requires length < P
    ensures Returns(length) <==> length >= 2
    ensures Returns(length) ==> Turns(length) == length - 1
  {
    if length >= 2 {
      QuotientIs(length - 2, P, 0, length - 2);
    } else {
      QuotientIs(length - 2, P, -1, length - 2 + P);
    }
  }

  /** For one felt the loop takes as many turns as the field has elements, and for none one turn less. */
  lemma FewFelts()
    ensures Turns(1) == P && Turns(0) == P - 1 && !Returns(1) && !Returns(0)
  {
    QuotientIs(-1, P, -1, P - 1);
    QuotientIs(-2, P, -1, P - 2);
  }

  lemma ChainStep(H: Hash, memory: nat -> int, start: int, n: nat)
    requires n > 0
    ensures Chain(H, Read(memory, start - 1, n + 1)) == H(memory((start - 1) % P), Chain(H, Read(memory, start, n)))
  {
    assert Read(memory, start - 1, n + 1)[1..] == Read(memory, start, n);
  }

  /** `hash_chain`: the loop turns before it tests, and then compares the pointers as felts. */
  method HashChain(H: Hash, memory: nat -> int, dataPtr: nat, dataLength: nat) returns (hash: int, ghost turns: nat)
    requires dataLength < P
    ensures turns == Turns(dataLength)
    ensures hash == Chain(H, Read(memory, dataPtr + dataLength - 1 - turns, turns + 1))
    ensures dataLength >= 2 ==> hash == Chain(H, Read(memory, dataPtr, dataLength))
  {
    hide Chain, Read;
    TurnsIsLeast(dataLength);
    ReturnsExactly(dataLength);
    ghost var end := dataPtr + dataLength - 1;
    var ptr: int := dataPtr + dataLength - 1;
    hash, turns := memory(ptr % P), 0;
    assert hash == Chain(H, Read(memory, end, 1)) by { ReadOne(H, memory, end); }
    while true
      invariant turns < Turns(dataLength) && ptr == end - turns
      invariant hash == Chain(H, Read(memory, end - turns, turns + 1))
      decreases Turns(dataLength) - turns
    {
      ChainStep(H, memory, end - turns, turns + 1);
      hash := H(memory((ptr - 1) % P), hash);
      ptr, turns := ptr - 1, turns + 1;
      if (ptr - dataPtr) % P == 0 { break; }
    }
  }

  lemma ReadOne(H: Hash, memory: nat -> int, a: int)
    ensures Chain(H, Read(memory, a, 1)) == memory(a % P)
  {
  }

  // ------------------------------------------------------------------------
  // What a chain says about its list
  // ------------------------------------------------------------------------

  /** Chains over equally many felts are equal only for equal felts. */
  lemma {:induction false} ChainInjective(H: Hash, s: seq<int>, t: seq<int>)
    requires Injective(H) && |s| == |t| && Chain(H, s) == Chain(H, t)
    ensures s == t
    decreases |s|
  {
    if |s| == 1 {
      assert s == [s[0]] && t == [t[0]];
    } else if |s| > 1 {
      InjectiveAt(H, s[0], Chain(H, s[1..]), t[0], Chain(H, t[1..]));
      ChainInjective(H, s[1..], t[1..]);
      assert s == [s[0]] + s[1..] && t == [t[0]] + t[1..];
    }
  }

  /** The felts of a list, up to any length, with the chain of the others as the last one. */
  function Shortened(H: Hash, t: seq<int>, m: nat): (s: seq<int>)
    requires 0 < m <= |t|
    ensures |s| == m
  {
    t[..m - 1] + [Chain(H, t[m - 1..])]
  }

  lemma {:induction false} SameChain(H: Hash, t: seq<int>, m: nat)
    requires 0 < m <= |t|
    ensures Chain(H, Shortened(H, t, m)) == Chain(H, t)
    decreases m
  {
    var s := Shortened(H, t, m);
    if m > 1 {
      assert t[1..][m - 2..] == t[m - 1..];
      assert s[1..] == Shortened(H, t[1..], m - 1);
      SameChain(H, t[1..], m - 1);
    } else {
      assert t[0..] == t;
    }
  }

  /** Equal chains mean equal lists. */
  ghost predicate Separates(H: Hash, m: nat, n: nat) {
    forall s: seq<int>, t: seq<int> :: |s| == m && |t| == n && Chain(H, s) == Chain(H, t) ==> s == t
  }

  /** Chains over `m` and `n` felts tell their lists apart if and only if these are equally long. */
  lemma SeparatesExactly(H: Hash, m: nat, n: nat)
    requires Injective(H) && m > 0 && n > 0
    ensures Separates(H, m, n) <==> m == n
  {
    if m == n {
      forall s: seq<int>, t: seq<int> | |s| == m && |t| == n && Chain(H, s) == Chain(H, t) ensures s == t {
        ChainInjective(H, s, t);
      }
    } else {
      var t: seq<int> := seq(if m < n then n else m, _ => 0);
      var s := Shortened(H, t, if m < n then m else n);
      SameChain(H, t, |s|);
      assert |s| != |t|;
    }
  }
}
