/** Minimizing a case while an oracle keeps reporting the same signature. */
module Minimizer {
  import opened Bits
  import opened Bytes
  import Results
  import opened Locators
  import opened Planner

  type Intents = seq<Intent>

  function Without(s: Intents, i: nat): (r: Intents)
    requires i < |s|
    ensures |r| == |s| - 1
  {
    s[..i] + s[i + 1..]
  }

  /** `a` is `b` with some elements left out. */
  ghost predicate Subsequence(a: Intents, b: Intents) {
    if a == [] then true
    else b != [] && ((a[0] == b[0] && Subsequence(a[1..], b[1..])) || Subsequence(a, b[1..]))
  }

  lemma {:induction false} SubsequenceSelf(a: Intents)
    ensures Subsequence(a, a)
  {
    if a != [] { SubsequenceSelf(a[1..]); }
  }

  lemma {:induction false} SubsequenceTrans(a: Intents, b: Intents, c: Intents)
    requires Subsequence(a, b) && Subsequence(b, c)
    ensures Subsequence(a, c)
    decreases |a| + |b| + |c|
  {
    if a != [] {
      if b[0] == c[0] && Subsequence(b[1..], c[1..]) {
        if a[0] == b[0] && Subsequence(a[1..], b[1..]) {
          SubsequenceTrans(a[1..], b[1..], c[1..]);
        } else {
          SubsequenceTrans(a, b[1..], c[1..]);
        }
      } else {
        SubsequenceTrans(a, b, c[1..]);
      }
    }
  }

  lemma {:induction false} WithoutSubsequence(s: Intents, i: nat)
    requires i < |s|
    ensures Subsequence(Without(s, i), s)
  {
    if i == 0 {
      SubsequenceSelf(s[1..]);
      assert Without(s, 0) == s[1..];
      if s[1..] != [] {
        assert Subsequence(Without(s, 0), s[1..]);
      }
    } else {
      WithoutSubsequence(s[1..], i - 1);
      assert Without(s, i)[1..] == Without(s[1..], i - 1) && Without(s, i)[0] == s[0];
    }
  }

  /** Leaving out one element and then an earlier one leaves less than leaving out the earlier one. */
  lemma {:induction false} WithoutTwice(s: Intents, j: nat, i: nat)
    requires j < i < |s|
    ensures Subsequence(Without(Without(s, i), j), Without(s, j))
  {
    assert Without(Without(s, i), j) == Without(Without(s, j), i - 1);
    WithoutSubsequence(Without(s, j), i - 1);
  }

  // ----- Shrinking one intent -----

  /** The lowest set bit: `v & v.wrapping_neg()`. */
  function LowestBit(v: nat): (r: nat)
    ensures r <= v
  {
    if v == 0 then 0 else if v % 2 == 1 then 1 else 2 * LowestBit(v / 2)
  }

  /** `count_ones`. */
  function CountOnes(v: nat): nat {
    if v == 0 then 0 else v % 2 + CountOnes(v / 2)
  }

  lemma NextBit(v: nat, j: nat)
    ensures Bit(v, j + 1) == Bit(v / 2, j)
  {
  }

  lemma {:induction false} NoneBelow(v: nat, i: nat)
    requires v % 2 == 0 && i > 0
    ensures (forall j :: 0 <= j < i ==> !Bit(v, j)) <==> (forall j :: 0 <= j < i - 1 ==> !Bit(v / 2, j))
  {
    if forall j :: 0 <= j < i - 1 ==> !Bit(v / 2, j) {
      forall j | 0 <= j < i
        ensures !Bit(v, j)
      {
        if j > 0 { NextBit(v, j - 1); }
      }
    } else {
      var j :| 0 <= j < i - 1 && Bit(v / 2, j);
      NextBit(v, j);
      assert Bit(v, j + 1);
    }
  }

  lemma OddBelow(v: nat, i: nat, j: nat)
    requires v % 2 == 1 && j == 0 < i
    ensures !forall k :: 0 <= k < i ==> !Bit(v, k)
  {
    assert Bit(v, j);
  }

  /** Exactly the lowest of the set bits is kept. */
  lemma {:induction false} LowestBitIs(v: nat, i: nat)
    ensures Bit(LowestBit(v), i) <==> Bit(v, i) && forall j :: 0 <= j < i ==> !Bit(v, j)
    decreases v, i
  {
    ZeroBits(i);
    if v != 0 && v % 2 == 1 {
      if i > 0 {
        ZeroBits(i - 1);
        NextBit(1, i - 1);
        OddBelow(v, i, 0);
      }
    } else if v != 0 && i == 0 {
      assert 2 * LowestBit(v / 2) % 2 == 0;
    } else if v != 0 {
      LowestBitIs(v / 2, i - 1);
      NoneBelow(v, i);
      NextBit(LowestBit(v), i - 1);
      assert LowestBit(v) / 2 == LowestBit(v / 2);
      NextBit(v, i - 1);
    }
  }

  lemma DoubleOnes(v: nat)
    ensures CountOnes(2 * v) == CountOnes(v)
  {
    assert 2 * v / 2 == v && 2 * v % 2 == 0;
  }

  lemma {:induction false} LowestBitOnes(v: nat)
    ensures CountOnes(LowestBit(v)) == if v == 0 then 0 else 1
  {
    if v != 0 && v % 2 == 0 {
      LowestBitOnes(v / 2);
      DoubleOnes(LowestBit(v / 2));
    }
  }

  lemma {:induction false} SomeOnes(v: nat)
    ensures CountOnes(v) == 0 <==> v == 0
  {
    if v != 0 { SomeOnes(v / 2); }
  }

  /** A mask has more than one bit exactly when its lowest bit is less than the whole. */
  lemma {:induction false} FewBits(v: nat)
    ensures CountOnes(v) > 1 <==> LowestBit(v) != v
  {
    if v != 0 && v % 2 == 1 {
      SomeOnes(v / 2);
    } else if v != 0 {
      FewBits(v / 2);
    }
  }

  /** The simpler variants tried for an intent, in order. */
  function ShrinkIntent(intent: Intent, parentLen: u64): (r: seq<Intent>)
    ensures |r| <= 3
  {
    match intent
    case SetValue(target, field, value) =>
      (if 0 < value then [SetValue(target, field, 0)] else [])
      + (if 1 < value then [SetValue(target, field, 1)] else [])
      + (if value / 2 < value then [SetValue(target, field, value / 2)] else [])
    case UpdateBits(target, field, setMask, clear) =>
      (if CountOnes(setMask) > 1 then [UpdateBits(target, field, LowestBit(setMask), clear)] else [])
      + (if CountOnes(clear) > 1 then [UpdateBits(target, field, setMask, LowestBit(clear))] else [])
    case PatchBytes(offset, bytes) =>
      if |bytes| > 1 then [PatchBytes(offset, bytes[..|bytes| / 2])] else []
    case ReplaceFixedBytes(_, _, _) => []
    case TruncateImage(newLen) =>
      if parentLen > newLen && parentLen - newLen > 1
      then [TruncateImage(parentLen - (parentLen - newLen) / 2)] else []
  }

  /** Both write to the same place; the first asks for less. */
  predicate Simpler(a: Intent, b: Intent) {
    match (a, b)
    case (SetValue(t, f, v), SetValue(u, g, w)) => t == u && f == g && v < w
    case (UpdateBits(t, f, s, c), UpdateBits(u, g, p, q)) =>
      t == u && f == g
      && ((s < p && CountOnes(s) < CountOnes(p) && c == q) || (s == p && c < q && CountOnes(c) < CountOnes(q)))
    case (PatchBytes(o, x), PatchBytes(p, y)) => o == p && |x| < |y| && x <= y
    case (TruncateImage(l), TruncateImage(m)) => l > m
    case (_, _) => false
  }

  lemma {:induction false} FewerOnes(v: nat)
    requires CountOnes(v) > 1
    ensures LowestBit(v) < v && CountOnes(LowestBit(v)) < CountOnes(v)
  {
    LowestBitOnes(v);
  }

  /** Every variant is simpler. */
  lemma {:induction false} ShrinksAreSimpler(intent: Intent, parentLen: u64, k: nat)
    requires k < |ShrinkIntent(intent, parentLen)|
    ensures Simpler(ShrinkIntent(intent, parentLen)[k], intent)
  {
    hide CountOnes, LowestBit;
    match intent
    case UpdateBits(_, _, setMask, clear) =>
      if CountOnes(setMask) > 1 { FewerOnes(setMask); }
      if CountOnes(clear) > 1 { FewerOnes(clear); }
    case _ =>
  }

  function ValueAt(intents: Intents, index: nat): u64
    requires index < |intents| && intents[index].SetValue?
  {
    intents[index].value
  }

  /** The distinct values tried for a value `v`. */
  predicate IsTried(v: u64, w: u64) {
    w < v && (w == 0 || w == 1 || w == v / 2)
  }

  // ----- The minimizer -----

  /** One oracle run: whether attempt `attempt` on these intents reports the target signature. */
  type Verdict = (Intents, nat) -> bool

  lemma RoundCost(c: nat, rounds: nat)
    ensures c * (rounds + 1) == c * rounds + c
  {
  }

  lemma RoundsBound(c: nat, rounds: nat, n: nat)
    requires rounds <= n
    ensures c * rounds <= c * n
  {
  }

  lemma ThreeMore(c: nat, index: nat)
    ensures c * (3 * (index + 1)) == c * (3 * index) + c * 3
  {
  }

  lemma Budget(c: nat, n: nat, m: nat)
    requires m <= n
    ensures c <= c * (1 + 4 * n)
    ensures c + c * n + c * (3 * m) <= c * (1 + 4 * n)
  {
    assert c * (1 + 4 * n) == c + c * n + c * (3 * n);
    RoundsBound(c, 3 * m, 3 * n);
  }

  lemma {:induction false} SubsequenceShorter(a: Intents, b: Intents)
    requires Subsequence(a, b)
    ensures |a| <= |b|
    decreases |b|
  {
    if a != [] {
      if a[0] == b[0] && Subsequence(a[1..], b[1..]) {
        SubsequenceShorter(a[1..], b[1..]);
      } else {
        SubsequenceShorter(a, b[1..]);
      }
    }
  }

  /** The intents of the case so far, and the number of oracle runs spent. */
  class Minimizer {
    const plannable: Intents -> bool
    const verdict: Verdict
    const confirmations: nat
    const parentLen: u64
    var attempts: nat

    /** At least two confirmations are asked for, whatever the request says. */
    constructor (plannable: Intents -> bool, verdict: Verdict, requested: nat, parentLen: u64)
      ensures this.plannable == plannable && this.verdict == verdict && this.parentLen == parentLen
      ensures attempts == 0 && confirmations == (if requested < 2 then 2 else requested)
    {
      this.plannable, this.verdict, this.parentLen := plannable, verdict, parentLen;
      attempts, confirmations := 0, if requested < 2 then 2 else requested;
    }

    /** The candidate can be planned, and every confirming run from attempt `from` on agrees. */
    ghost predicate Confirmed(candidate: Intents, from: nat) {
      plannable(candidate) && forall n :: from < n <= from + confirmations ==> verdict(candidate, n)
    }

    /** Runs the oracle until one run disagrees or all have confirmed. */
    method Preserves(candidate: Intents) returns (ok: bool)
      modifies this`attempts
      ensures old(attempts) <= attempts <= old(attempts) + confirmations
      ensures ok <==> Confirmed(candidate, old(attempts))
      ensures ok ==> attempts == old(attempts) + confirmations
    {
      if !plannable(candidate) {
        return false;
      }
      for c := 0 to confirmations
        invariant attempts == old(attempts) + c
        invariant forall n :: old(attempts) < n <= attempts ==> verdict(candidate, n)
      {
        attempts := attempts + 1;
        if !verdict(candidate, attempts) {
          return false;
        }
      }
      ok := true;
    }

    /** An oracle that always answers alike. */
    ghost predicate Steady() {
      forall c, n, m :: verdict(c, n) == verdict(c, m)
    }

    /** What a steady oracle confirms. */
    ghost predicate Keeps(candidate: Intents) {
      plannable(candidate) && verdict(candidate, 0)
    }

    /** Adding intents to a kept case keeps it. */
    ghost predicate Monotone() {
      forall a, b :: Keeps(a) && Subsequence(a, b) ==> Keeps(b)
    }

    lemma SteadyConfirms(candidate: Intents, from: nat)
      requires Steady() && confirmations > 0
      ensures Confirmed(candidate, from) <==> Keeps(candidate)
    {
      assert verdict(candidate, from + 1) == verdict(candidate, 0);
      if Keeps(candidate) {
        forall n | from < n <= from + confirmations
          ensures verdict(candidate, n)
        {
          assert verdict(candidate, n) == verdict(candidate, 0);
        }
      }
    }

    /** No single removal before `index` keeps the case. */
    ghost predicate TriedBelow(current: Intents, index: nat) {
      forall j :: 0 <= j < index && j < |current| && |current| > 1 ==> !Keeps(Without(current, j))
    }

    lemma TriedStays(current: Intents, index: nat)
      requires Monotone() && index < |current| && TriedBelow(current, index)
      ensures TriedBelow(Without(current, index), index)
    {
      var next := Without(current, index);
      forall j | 0 <= j < index && j < |next| && |next| > 1
        ensures !Keeps(Without(next, j))
      {
        WithoutTwice(current, j, index);
        assert !Keeps(Without(current, j));
      }
    }

    /** Drops intents one at a time, as long as the signature stays. */
    method RemoveEach(start: Intents) returns (current: Intents, ghost since: nat)
      requires confirmations > 0 && attempts == confirmations && Confirmed(start, 0)
      modifies this`attempts
      ensures Subsequence(current, start) && (start != [] ==> current != [])
      ensures Confirmed(current, since)
      ensures attempts <= old(attempts) + confirmations * |start|
      ensures Steady() && Monotone() ==> Keeps(current) && TriedBelow(current, |current|)
    {
      hide Subsequence, Without, Monotone, Steady, Keeps, TriedBelow, Confirmed;
      current, since := start, 0;
      SubsequenceSelf(start);
      var index: nat, rounds: nat := 0, 0;
      NothingTried(start);
      while index < |current|
        invariant index <= |current| && Subsequence(current, start) && (start != [] ==> current != [])
        invariant |current| - index + rounds == |start|
        invariant Confirmed(current, since)
        invariant attempts <= old(attempts) + confirmations * rounds
        invariant Steady() && Monotone() ==> TriedBelow(current, index)
        decreases |current| - index
      {
        var candidate := Without(current, index);
        ghost var before := attempts;
        var kept := false;
        if candidate != [] {
          kept := Preserves(candidate);
        }
        RoundCost(confirmations, rounds);
        rounds := rounds + 1;
        Tried(current, index, before);
        if kept {
          WithoutSubsequence(current, index);
          SubsequenceTrans(candidate, current, start);
          since := before;
          current := candidate;
        } else {
          index := index + 1;
        }
      }
      RoundsBound(confirmations, rounds, |start|);
      if Steady() {
        SteadyConfirms(current, since);
      }
    }

    /** Replaces each intent by the last of its variants that keeps the signature. */
    method ShrinkEach(start: Intents, ghost first: nat) returns (current: Intents, ghost since: nat)
      requires Confirmed(start, first)
      modifies this`attempts
      ensures |current| == |start|
      ensures forall i :: 0 <= i < |start| ==> current[i] == start[i] || Simpler(current[i], start[i])
      ensures Confirmed(current, since)
      ensures attempts <= old(attempts) + confirmations * (3 * |start|)
    {
      hide Confirmed, Simpler, ShrinkIntent;
      current, since := start, first;
      for index := 0 to |start|
        invariant |current| == |start|
        invariant forall i :: 0 <= i < index ==> current[i] == start[i] || Simpler(current[i], start[i])
        invariant forall i :: index <= i < |start| ==> current[i] == start[i]
        invariant Confirmed(current, since)
        invariant attempts <= old(attempts) + confirmations * (3 * index)
      {
        var base := current;
        ghost var spent := attempts;
        current, since := ShrinkOne(base, index, since);
        RoundsBound(confirmations, 3 * index, 3 * index);
        ThreeMore(confirmations, index);
      }
    }

    /** Tries the variants of one intent, keeping each that works in place of the one before. */
    method ShrinkOne(start: Intents, index: nat, ghost first: nat) returns (current: Intents, ghost since: nat)
      requires index < |start| && Confirmed(start, first)
      modifies this`attempts
      ensures |current| == |start| && current == start[index := current[index]]
      ensures current[index] == start[index] || Simpler(current[index], start[index])
      ensures Confirmed(current, since)
      ensures attempts <= old(attempts) + confirmations * 3
      ensures Steady() && confirmations > 0 ==> EndsAs(start, index, current)
      ensures Steady() && confirmations > 0 && start[index].SetValue? ==>
        current[index].SetValue? && (Smallest(start, index, current) <==> OneKept(start, index))
    {
      hide Confirmed, Simpler, ShrinkIntent, Steady, Keeps, LastKept, Smallest, OneKept, EndsAs;
      LastKeptIs(start, index);
      if start[index].SetValue? {
        SmallestExactly(start, index);
      }
      current, since := start, first;
      var variants := ShrinkIntent(start[index], parentLen);
      assert start == start[index := start[index]];
      NoneKept(start, index);
      assert variants[..0] == [];
      for k := 0 to |variants|
        invariant |current| == |start|
        invariant current == start[index := current[index]]
        invariant current[index] == start[index] || Simpler(current[index], start[index])
        invariant Confirmed(current, since)
        invariant attempts <= old(attempts) + confirmations * k
        invariant Steady() && confirmations > 0 ==> current == LastKept(start, index, variants[..k])
      {
        var candidate := current[index := variants[k]];
        assert candidate == start[index := variants[k]];
        ghost var before := attempts;
        var kept := Preserves(candidate);
        RoundCost(confirmations, k);
        ShrinksAreSimpler(start[index], parentLen, k);
        assert variants[..k + 1] == variants[..k] + [variants[k]];
        MoreKept(start, index, variants[..k], variants[k]);
        if Steady() && confirmations > 0 {
          SteadyConfirms(candidate, before);
        }
        if kept {
          since := before;
          current := candidate;
        }
      }
      assert variants[..|variants|] == variants;
      RoundsBound(confirmations, |variants|, 3);
    }

    /** The case with the last of the variants that keeps the signature; not the smallest one. */
    ghost function LastKept(start: Intents, index: nat, variants: seq<Intent>): (r: Intents)
      requires index < |start|
      ensures |r| == |start| && r == start[index := r[index]]
    {
      if variants == [] then start
      else if Keeps(start[index := variants[|variants| - 1]]) then start[index := variants[|variants| - 1]]
      else LastKept(start, index, variants[..|variants| - 1])
    }

    lemma NoneKept(start: Intents, index: nat)
      requires index < |start|
      ensures LastKept(start, index, []) == start
    {
    }

    lemma MoreKept(start: Intents, index: nat, variants: seq<Intent>, v: Intent)
      requires index < |start|
      ensures LastKept(start, index, variants + [v])
              == if Keeps(start[index := v]) then start[index := v] else LastKept(start, index, variants)
    {
      hide Keeps;
      assert (variants + [v])[..|variants + [v]| - 1] == variants;
    }

    /** What a steady oracle leaves of an intent: of a raw patch the front half, of a truncation half the
        cut, of the masks the lowest bit of the one to clear or else of the one to set, each if that keeps
        the signature and is less than there was; of a value the largest one kept of 0, 1 and its half. */
    ghost predicate EndsAs(start: Intents, index: nat, current: Intents)
      requires index < |start|
    {
      match start[index]
      case PatchBytes(offset, bytes) =>
        var half := start[index := PatchBytes(offset, bytes[..|bytes| / 2])];
        current == if |bytes| >= 2 && Keeps(half) then half else start
      case TruncateImage(newLen) =>
        if newLen + 2 <= parentLen then
          var half := start[index := TruncateImage(parentLen - (parentLen - newLen) / 2)];
          current == if Keeps(half) then half else start
        else current == start
      case UpdateBits(target, field, setMask, clear) =>
        var lessClear := start[index := UpdateBits(target, field, setMask, LowestBit(clear))];
        var lessSet := start[index := UpdateBits(target, field, LowestBit(setMask), clear)];
        current == if LowestBit(clear) != clear && Keeps(lessClear) then lessClear
                   else if LowestBit(setMask) != setMask && Keeps(lessSet) then lessSet
                   else start
      case ReplaceFixedBytes(_, _, _) => current == start
      case SetValue(_, _, v) =>
        && |current| == |start| && current[index].SetValue? && current == start[index := current[index]]
        && current[index] == start[index].(value := ValueAt(current, index))
        && (forall w: u64 :: IsTried(v, w) && KeptAt(start, index, w) ==> w <= ValueAt(current, index) < v)
        && (current != start ==>
              IsTried(v, ValueAt(current, index)) && KeptAt(start, index, ValueAt(current, index)))
    }

    /** Setting the intent at `index` to `w` instead keeps the signature. */
    ghost predicate KeptAt(start: Intents, index: nat, w: u64)
      requires index < |start| && start[index].SetValue?
    {
      Keeps(start[index := start[index].(value := w)])
    }

    /** No value tried for the intent keeps the signature and is smaller than the one in `current`. */
    ghost predicate Smallest(start: Intents, index: nat, current: Intents)
      requires index < |start| == |current| && start[index].SetValue? && current[index].SetValue?
    {
      forall w: u64 :: IsTried(start[index].value, w) && KeptAt(start, index, w) ==> current[index].value <= w
    }

    /** Of the values tried at most one keeps the signature. */
    ghost predicate OneKept(start: Intents, index: nat)
      requires index < |start| && start[index].SetValue?
    {
      forall w: u64, x: u64 ::
        (IsTried(start[index].value, w) && KeptAt(start, index, w)
         && IsTried(start[index].value, x) && KeptAt(start, index, x)) ==> w == x
    }

    /** The last kept variant is the one with the largest value kept. */
    lemma LastIsLargest(start: Intents, index: nat)
      requires index < |start| && start[index].SetValue?
      ensures var v := start[index].value;
              var current := LastKept(start, index, ShrinkIntent(start[index], parentLen));
              && |current| == |start| && current[index].SetValue?
              && current[index] == start[index].(value := ValueAt(current, index))
              && (forall w: u64 :: IsTried(v, w) && KeptAt(start, index, w) ==> w <= ValueAt(current, index))
              && (ValueAt(current, index) == v || (IsTried(v, ValueAt(current, index))
                                                && KeptAt(start, index, ValueAt(current, index))))
              && (ValueAt(current, index) == v ==> forall w: u64 :: IsTried(v, w) ==> !KeptAt(start, index, w))
    {
      hide Keeps, LastKept;
      var v := start[index].value;
      var zero, one, half := start[index].(value := 0), start[index].(value := 1), start[index].(value := v / 2);
      NoneKept(start, index);
      MoreKept(start, index, [], zero);
      MoreKept(start, index, [zero], one);
      MoreKept(start, index, [zero, one], half);
      MoreKept(start, index, [zero], half);
      if v > 1 {
        assert ShrinkIntent(start[index], parentLen) == [zero, one] + [half] && [zero] + [one] == [zero, one];
      } else if v == 1 {
        assert ShrinkIntent(start[index], parentLen) == [zero] + [half];
      }
      assert [] + [zero] == [zero];
    }

    lemma OneVariant(start: Intents, index: nat, v: Intent)
      requires index < |start|
      ensures LastKept(start, index, [v]) == if Keeps(start[index := v]) then start[index := v] else start
    {
      hide Keeps, LastKept;
      NoneKept(start, index);
      MoreKept(start, index, [], v);
      assert [] + [v] == [v];
    }

    /** The last kept variant, intent by intent. */
    lemma LastKeptIs(start: Intents, index: nat)
      requires index < |start|
      ensures EndsAs(start, index, LastKept(start, index, ShrinkIntent(start[index], parentLen)))
    {
      hide Keeps, LastKept, KeptAt, LowestBit, CountOnes;
      NoneKept(start, index);
      match start[index]
      case PatchBytes(offset, bytes) =>
        OneVariant(start, index, PatchBytes(offset, bytes[..|bytes| / 2]));
      case TruncateImage(newLen) =>
        if newLen + 2 <= parentLen {
          OneVariant(start, index, TruncateImage(parentLen - (parentLen - newLen) / 2));
        }
      case UpdateBits(target, field, setMask, clear) =>
        var lessSet := UpdateBits(target, field, LowestBit(setMask), clear);
        var lessClear := UpdateBits(target, field, setMask, LowestBit(clear));
        FewBits(setMask);
        FewBits(clear);
        OneVariant(start, index, lessSet);
        OneVariant(start, index, lessClear);
        MoreKept(start, index, [lessSet], lessClear);
        assert ShrinkIntent(start[index], parentLen)
               == if LowestBit(setMask) == setMask && LowestBit(clear) == clear then []
                  else if LowestBit(clear) == clear then [lessSet]
                  else if LowestBit(setMask) == setMask then [lessClear]
                  else [lessSet] + [lessClear];
      case ReplaceFixedBytes(_, _, _) =>
      case SetValue(_, _, _) =>
        LastIsLargest(start, index);
    }

    /** So a value ends as the smallest one kept exactly when at most one of the distinct values tried is
        kept: a later, larger variant replaces an accepted smaller one. */
    lemma SmallestExactly(start: Intents, index: nat)
      requires index < |start| && start[index].SetValue?
      ensures var current := LastKept(start, index, ShrinkIntent(start[index], parentLen));
              && |current| == |start| && current[index].SetValue?
              && (Smallest(start, index, current) <==> OneKept(start, index))
    {
      hide Keeps, LastKept, KeptAt, ShrinkIntent;
      LastIsLargest(start, index);
    }

    /** The whole minimization: check, remove, shrink. */
    method Minimize(start: Intents) returns (r: Results.Option<Intents>, ghost removed: Intents, ghost since: nat)
      requires attempts == 0 && confirmations > 0
      modifies this`attempts
      ensures r.None? <==> !Confirmed(start, 0)
      ensures r.Some? ==>
        && Subsequence(removed, start) && |r.value| == |removed| && (start != [] ==> removed != [])
        && (forall i :: 0 <= i < |removed| ==> r.value[i] == removed[i] || Simpler(r.value[i], removed[i]))
        && Confirmed(r.value, since)
        && (Steady() && Monotone() ==> TriedBelow(removed, |removed|))
      ensures attempts <= confirmations * (1 + 4 * |start|)
    {
      hide Confirmed, Simpler, Subsequence, Steady, Monotone, TriedBelow, Keeps;
      removed, since := start, 0;
      ghost var n := |start|;
      Budget(confirmations, n, n);
      var ok := Preserves(start);
      if !ok {
        return Results.None, start, 0;
      }
      var current: Intents;
      current, since := RemoveEach(start);
      removed := current;
      SubsequenceShorter(current, start);
      Budget(confirmations, n, |current|);
      current, since := ShrinkEach(current, since);
      r := Results.Some(current);
    }

    lemma NothingTried(current: Intents)
      ensures TriedBelow(current, 0)
    {
    }

    lemma Tried(current: Intents, index: nat, before: nat)
      requires index < |current| && confirmations > 0
      ensures Steady() && Monotone() && TriedBelow(current, index) ==>
        if Without(current, index) != [] && Confirmed(Without(current, index), before)
        then TriedBelow(Without(current, index), index)
        else TriedBelow(current, index + 1)
    {
      hide Monotone, Steady, Without, Keeps, Confirmed;
      if Steady() && Monotone() && TriedBelow(current, index) {
        SteadyConfirms(Without(current, index), before);
        TriedStays(current, index);
        if |current| == 1 {
          assert Without(current, index) == [];
        }
      }
    }
  }

  /** An oracle that always reports the signature: zero is accepted first, yet eight ends as four. */
  method LargerReplacesSmaller() returns (m: Minimizer, shrunk: Intents)
    ensures fresh(m) && m.Steady() && m.confirmations == 2
    ensures m.Keeps([SetValue(SuperblockObject, Named("erofs.superblock.epoch"), 0)])
    ensures shrunk == [SetValue(SuperblockObject, Named("erofs.superblock.epoch"), 4)]
  {
    m := new Minimizer(_ => true, (_, _) => true, 2, 0);
    var start := [SetValue(SuperblockObject, Named("erofs.superblock.epoch"), 8)];
    ghost var since;
    shrunk, since := m.ShrinkOne(start, 0, 0);
    m.LastIsLargest(start, 0);
    assert IsTried(8, 4) && m.KeptAt(start, 0, 4);
    assert shrunk == [shrunk[0]];
  }
}
