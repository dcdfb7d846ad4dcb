/** The occurrence counter behind every import id: a per-call dictionary
    from a transaction key to the number of times that key has been seen so
    far in the batch. This module gives the counter's meaning as functions
    of the key sequence; the mappers in ApiSync, ScriptSync and UploadCsv
    run the dictionary itself and are proved equal to these functions. */
module Occurrences {

  /** The number of times k occurs in s. */
  function Count<K(==)>(s: seq<K>, k: K): nat
    decreases |s|
  {
    if s == [] then 0 else Count(s[..|s| - 1], k) + (if s[|s| - 1] == k then 1 else 0)
  }

  /** The occurrence of the i-th key: how many of the keys up to and
      including position i equal it. */
  function Occurrence<K(==)>(keys: seq<K>, i: nat): nat
    requires i < |keys|
  {
    Count(keys[..i + 1], keys[i])
  }

  /** The counter dictionary read the way the source reads it: a missing
      entry counts as zero. */
  function Get<K>(m: map<K, nat>, k: K): nat {
    if k in m then m[k] else 0
  }

  /** The dictionary holds, for every key, the number of times it occurs
      in the keys seen so far. */
  ghost predicate Counts<K(!new)>(m: map<K, nat>, seen: seq<K>) {
    forall k :: Get(m, k) == Count(seen, k)
  }

  /** The positions of s that hold k. */
  ghost function Positions<K>(s: seq<K>, k: K): set<nat> {
    set j: nat | j < |s| && s[j] == k
  }

  lemma CountSnoc<K>(s: seq<K>, x: K, k: K)
    ensures Count(s + [x], k) == Count(s, k) + (if x == k then 1 else 0)
  {
    assert (s + [x])[..|s|] == s;
  }

  /** Count agrees with the independent reading "the number of positions
      holding k". */
  lemma {:induction false} CountIsNumberOfPositions<K>(s: seq<K>, k: K)
    ensures Count(s, k) == |Positions(s, k)|
    decreases |s|
  {
    if s != [] {
      var init := s[..|s| - 1];
      CountIsNumberOfPositions(init, k);
      var last := |s| - 1;
      if s[last] == k {
        assert Positions(s, k) == Positions(init, k) + {last};
        assert last !in Positions(init, k);
      } else {
        assert Positions(s, k) == Positions(init, k);
      }
    }
  }

  lemma {:induction false} CountMonotone<K>(s: seq<K>, m: nat, n: nat, k: K)
    requires m <= n <= |s|
    ensures Count(s[..m], k) <= Count(s[..n], k)
    decreases n - m
  {
    if m < n {
      CountMonotone(s, m, n - 1, k);
      assert s[..n][..n - 1] == s[..n - 1];
    }
  }

  /** The positions up to and including i that hold the same key as i. */
  ghost function SameKeyUpTo<K>(keys: seq<K>, i: nat): set<nat>
    requires i < |keys|
  {
    set j: nat | j <= i && keys[j] == keys[i]
  }

  /** The k-th position holding a given key gets occurrence k: the
      occurrence of position i is the number of positions up to i that hold
      the same key. */
  lemma OccurrenceIsRank<K>(keys: seq<K>, i: nat)
    requires i < |keys|
    ensures Occurrence(keys, i) == |SameKeyUpTo(keys, i)|
  {
    var pre := keys[..i + 1];
    CountIsNumberOfPositions(pre, keys[i]);
    assert Positions(pre, keys[i]) == SameKeyUpTo(keys, i);
  }

  /** Occurrences count from 1, and a position has occurrence 1 exactly
      when no earlier position holds the same key. */
  lemma OccurrenceFromOne<K>(keys: seq<K>, i: nat)
    requires i < |keys|
    ensures Occurrence(keys, i) >= 1
    ensures Occurrence(keys, i) == 1 <==> forall j :: 0 <= j < i ==> keys[j] != keys[i]
  {
    var pre := keys[..i + 1];
    assert pre[..i] == keys[..i];
    assert Occurrence(keys, i) == Count(keys[..i], keys[i]) + 1;
    CountIsNumberOfPositions(keys[..i], keys[i]);
    if Count(keys[..i], keys[i]) == 0 {
      assert Positions(keys[..i], keys[i]) == {};
      forall j | 0 <= j < i ensures keys[j] != keys[i] {
        assert j !in Positions(keys[..i], keys[i]);
      }
    } else {
      var j :| j in Positions(keys[..i], keys[i]);
      assert keys[j] == keys[i];
    }
  }

  /** Later repeats of a key get strictly larger occurrences, so two
      positions with the same key never share an occurrence. */
  lemma OccurrenceIncreases<K>(keys: seq<K>, i: nat, j: nat)
    requires i < j < |keys| && keys[i] == keys[j]
    ensures Occurrence(keys, i) < Occurrence(keys, j)
  {
    CountMonotone(keys, i + 1, j, keys[i]);
    assert keys[..j + 1][..j] == keys[..j];
    CountSnoc(keys[..j], keys[j], keys[j]);
    assert keys[..j] + [keys[j]] == keys[..j + 1];
  }

  /** The counter is local to one call: the occurrences of a batch's first
      positions do not depend on what follows them. */
  lemma OccurrencePrefix<K>(a: seq<K>, b: seq<K>, i: nat)
    requires i < |a|
    ensures Occurrence(a + b, i) == Occurrence(a, i)
  {
    assert (a + b)[..i + 1] == a[..i + 1];
  }

  /** One step of the counter: bumping the entry for x keeps the
      dictionary equal to the counts of the keys seen so far. */
  lemma BumpKeepsCounts<K>(seen: seq<K>, m: map<K, nat>, x: K)
    requires forall k :: Get(m, k) == Count(seen, k)
    ensures forall k :: Get(m[x := Get(m, x) + 1], k) == Count(seen + [x], k)
  {
    forall k ensures Get(m[x := Get(m, x) + 1], k) == Count(seen + [x], k) {
      CountSnoc(seen, x, k);
    }
  }

  /** One step of the occurrence dictionary, written the way the mappers
      write it (a missing or zero entry becomes 1, any other is bumped):
      it keeps the dictionary equal to the counts of the keys seen, and the
      entry it sets is the occurrence of the current key. */
  lemma CounterStep<K(!new)>(keys: seq<K>, i: nat, before: map<K, nat>)
    requires i < |keys| && Counts(before, keys[..i])
    ensures var after := if keys[i] !in before || before[keys[i]] == 0 then before[keys[i] := 1]
                         else before[keys[i] := before[keys[i]] + 1];
            && Counts(after, keys[..i + 1])
            && keys[i] in after && after[keys[i]] == Occurrence(keys, i)
  {
    var after := if keys[i] !in before || before[keys[i]] == 0 then before[keys[i] := 1]
                 else before[keys[i] := before[keys[i]] + 1];
    assert after == before[keys[i] := Get(before, keys[i]) + 1];
    BumpKeepsCounts(keys[..i], before, keys[i]);
    assert keys[..i] + [keys[i]] == keys[..i + 1];
  }

  /** The same step, for a dictionary already updated. */
  lemma CounterStepTo<K(!new)>(keys: seq<K>, i: nat, before: map<K, nat>, after: map<K, nat>)
    requires i < |keys| && Counts(before, keys[..i])
    requires after == if keys[i] !in before || before[keys[i]] == 0 then before[keys[i] := 1]
                      else before[keys[i] := before[keys[i]] + 1]
    ensures Counts(after, keys[..i + 1])
    ensures keys[i] in after && after[keys[i]] == Occurrence(keys, i)
  {
    CounterStep(keys, i, before);
  }

  /** A batch numbered by its keys: element i is made from the i-th input
      and the occurrence of the i-th key. */
  function Numbered<T, K(==), U>(xs: seq<T>, keys: seq<K>, make: (T, nat) -> U): (out: seq<U>)
    requires |keys| == |xs|
    ensures |out| == |xs|
  {
    seq(|xs|, i requires 0 <= i < |xs| => make(xs[i], Occurrence(keys, i)))
  }

  lemma NumberedAt<T, K, U>(xs: seq<T>, keys: seq<K>, make: (T, nat) -> U, i: nat)
    requires |keys| == |xs| && i < |xs|
    ensures Numbered(xs, keys, make)[i] == make(xs[i], Occurrence(keys, i))
  {
  }

  /** out holds the numbered elements of the first |out| inputs. */
  ghost predicate NumberedPrefix<T, K, U>(xs: seq<T>, keys: seq<K>, make: (T, nat) -> U, out: seq<U>)
    requires |keys| == |xs|
  {
    |out| <= |xs| && forall j :: 0 <= j < |out| ==> out[j] == make(xs[j], Occurrence(keys, j))
  }

  lemma NumberedPrefixSnoc<T, K, U>(xs: seq<T>, keys: seq<K>, make: (T, nat) -> U, out: seq<U>)
    requires |keys| == |xs| && NumberedPrefix(xs, keys, make, out) && |out| < |xs|
    ensures NumberedPrefix(xs, keys, make, out + [make(xs[|out|], Occurrence(keys, |out|))])
  {
  }

  /** A complete prefix is the numbered batch. */
  lemma NumberedPrefixFull<T, K, U>(xs: seq<T>, keys: seq<K>, make: (T, nat) -> U, out: seq<U>)
    requires |keys| == |xs| && NumberedPrefix(xs, keys, make, out) && |out| == |xs|
    ensures out == Numbered(xs, keys, make)
  {
  }
}
