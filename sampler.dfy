/** The balanced sampler `buildQuizSet`. The local state its helper `pickOne`
    shares with it (the buckets, `usedIds`, `picked` and the three target
    tables) is the state of a `QuizSampler` object, and each phase of
    `buildQuizSet` is a method of it. */
module Sampler {
  import opened Questions
  import opened Shuffle
  import Scoring

  const QUIZ_SIZE: nat := 24

  /** The difficulty tiers, rarest first, and their quotas. */
  const DIFF_ORDER: seq<string> := ["Elite", "Hard", "Medium", "Easy"]
  const DIFF_QUOTA: seq<int> := [4, 6, 8, 6]

  /** The areas, in the key order of the quota object, and their quotas. */
  const AREA_ORDER: seq<string> := ["Mechanics", "Units", "Civs", "Strategy"]
  const AREA_QUOTA: seq<int> := [6, 6, 6, 6]

  const MC_QUOTA: int := 18
  const TF_QUOTA: int := 6

  /** `keyOf(area, diff, type)`. */
  function KeyOf(area: string, diff: string, t: Kind): string {
    area + "||" + diff + "||" + KindName(t)
  }

  function BucketKey(q: Question): string {
    KeyOf(q.area, q.difficulty, q.kind)
  }

  /** The two type buckets of one area and difficulty are different buckets. */
  lemma KeyOfTypes(area: string, diff: string)
    ensures KeyOf(area, diff, MC) != KeyOf(area, diff, TF)
  {
    var m := KeyOf(area, diff, MC);
    var t := KeyOf(area, diff, TF);
    assert m[|m| - 1] == 'C' && t[|t| - 1] == 'F';
  }

  /** The pool: every question with area and difficulty canonicalised. */
  function Pool(all: seq<Question>): (pool: seq<Question>)
    ensures |pool| == |all|
    ensures forall i :: 0 <= i < |all| ==> pool[i] == Canonicalize(all[i]) && pool[i].id == all[i].id
  {
    seq(|all|, i requires 0 <= i < |all| => Canonicalize(all[i]))
  }

  /** Building the pool changes nothing but the area and the difficulty of
      each question, and those only through `canon`; the type is already
      upper case. */
  lemma PoolChangesOnlyLabels(all: seq<Question>)
    ensures forall i :: 0 <= i < |all| ==>
      && Pool(all)[i].(area := all[i].area, difficulty := all[i].difficulty) == all[i]
      && Pool(all)[i].area == Canon(all[i].area)
      && Pool(all)[i].difficulty == Canon(all[i].difficulty)
  {
  }

  ghost predicate DistinctIds(qs: seq<Question>) {
    forall i, j :: 0 <= i < j < |qs| ==> qs[i].id != qs[j].id
  }

  ghost function Ids(qs: seq<Question>): set<string> {
    set q | q in qs :: q.id
  }

  /** `q` is a fresh copy of a pool entry. */
  ghost predicate FromPool(q: Question, pool: seq<Question>) {
    exists p :: p in pool && q == Clone(p)
  }

  /** The questions of `qs` with key `k`, in order: what the bucket of `k`
      holds once `qs` was distributed. */
  function BucketOf(qs: seq<Question>, k: string): seq<Question>
    decreases |qs|
  {
    if qs == [] then []
    else
      var last := qs[|qs| - 1];
      BucketOf(qs[..|qs| - 1], k) + (if BucketKey(last) == k then [last] else [])
  }

  /** The bucket of `k` holds exactly the questions of `qs` with key `k`. */
  lemma {:induction false} BucketOfMembers(qs: seq<Question>, k: string, q: Question)
    ensures q in BucketOf(qs, k) <==> q in qs && BucketKey(q) == k
    decreases |qs|
  {
    if qs != [] {
      var init := qs[..|qs| - 1];
      BucketOfMembers(init, k, q);
      assert qs == init + [qs[|qs| - 1]];
    }
  }

  lemma BucketOfSnoc(qs: seq<Question>, q: Question, k: string)
    ensures BucketOf(qs + [q], k) == BucketOf(qs, k) + (if BucketKey(q) == k then [q] else [])
  {
    assert (qs + [q])[..|qs|] == qs;
  }

  /** The entries of `qs` whose id was not used yet, in order. */
  function Unused(qs: seq<Question>, used: set<string>): (r: seq<Question>)
    ensures |r| <= |qs|
    ensures forall q :: q in r ==> q in qs && q.id !in used
    ensures forall q :: q in qs && q.id !in used ==> q in r
    decreases |qs|
  {
    if qs == [] then []
    else
      var last := qs[|qs| - 1];
      Unused(qs[..|qs| - 1], used) + (if last.id in used then [] else [last])
  }

  /** The copies pushed by `n` pops from the end of `s`, in push order. */
  function PopClones(s: seq<Question>, n: nat): (r: seq<Question>)
    requires n <= |s|
    ensures |r| == n
    ensures forall m :: 0 <= m < n ==> r[m] == Clone(s[|s| - 1 - m])
  {
    if n == 0 then [] else PopClones(s, n - 1) + [Clone(s[|s| - n])]
  }

  /** The areas whose target is still positive, in the order of the area
      table, as positions in `AREA_ORDER`, from position `i` on. */
  function Needing(t: seq<int>, i: nat): (r: seq<nat>)
    ensures forall x :: x in r ==> i <= x < |t| && t[x] > 0
    ensures forall x :: i <= x < |t| && t[x] > 0 ==> x in r
    decreases |t| - i
  {
    if i >= |t| then [] else (if t[i] > 0 then [i] else []) + Needing(t, i + 1)
  }

  function Total(t: seq<int>): int
    requires |t| == 4
  {
    t[0] + t[1] + t[2] + t[3]
  }

  // ---------------------------------------------------------------------------
  // Facts about identifiers.

  lemma DistinctPrefix(qs: seq<Question>, n: nat)
    requires DistinctIds(qs) && n <= |qs|
    ensures DistinctIds(qs[..n])
  {
  }

  /** The ids of a list are those of all but its last element and the last one's. */
  lemma IdsSnoc(qs: seq<Question>)
    requires qs != []
    ensures Ids(qs) == Ids(qs[..|qs| - 1]) + {qs[|qs| - 1].id}
  {
    assert qs == qs[..|qs| - 1] + [qs[|qs| - 1]];
  }

  /** Without repeated ids, the last id occurs nowhere before. */
  lemma LastIdFresh(qs: seq<Question>)
    requires qs != [] && DistinctIds(qs)
    ensures qs[|qs| - 1].id !in Ids(qs[..|qs| - 1])
  {
    var init := qs[..|qs| - 1];
    forall q | q in init ensures q.id != qs[|qs| - 1].id {
      var i :| 0 <= i < |init| && init[i] == q;
      assert qs[i] == q;
    }
  }

  /** A list without repeated ids has as many ids as elements. */
  lemma {:induction false} IdsCount(qs: seq<Question>)
    requires DistinctIds(qs)
    ensures |Ids(qs)| == |qs|
    decreases |qs|
  {
    if qs != [] {
      DistinctPrefix(qs, |qs| - 1);
      IdsCount(qs[..|qs| - 1]);
      IdsSnoc(qs);
      LastIdFresh(qs);
    }
  }

  lemma {:induction false} IdsAtMost(qs: seq<Question>)
    ensures |Ids(qs)| <= |qs|
    decreases |qs|
  {
    if qs != [] {
      IdsAtMost(qs[..|qs| - 1]);
      IdsSnoc(qs);
    }
  }

  /** As many ids as elements means no id is repeated. */
  lemma {:induction false} CountDistinct(qs: seq<Question>)
    requires |Ids(qs)| == |qs|
    ensures DistinctIds(qs)
    decreases |qs|
  {
    if qs != [] {
      var init := qs[..|qs| - 1];
      var last := qs[|qs| - 1];
      assert qs == init + [last];
      IdsSnoc(qs);
      IdsAtMost(init);
      assert last.id !in Ids(init);
      CountDistinct(init);
      forall i, j | 0 <= i < j < |qs| ensures qs[i].id != qs[j].id {
        if j == |qs| - 1 {
          assert qs[i] == init[i] && init[i] in init;
        } else {
          assert qs[i] == init[i] && qs[j] == init[j];
        }
      }
    }
  }

  /** Ids that `qs` does not hold change nothing in the filter. */
  lemma {:induction false} UnusedIgnores(qs: seq<Question>, used: set<string>, x: string)
    requires x !in Ids(qs)
    ensures Unused(qs, used) == Unused(qs, used - {x})
    decreases |qs|
  {
    if qs != [] {
      var init := qs[..|qs| - 1];
      assert Ids(init) <= Ids(qs) by {
        forall q | q in init ensures q in qs { }
      }
      UnusedIgnores(init, used, x);
    }
  }

  /** With distinct ids, filtering out `used` (all ids of the list) removes
      exactly `|used|` questions. */
  lemma {:induction false} UnusedCount(qs: seq<Question>, used: set<string>)
    requires DistinctIds(qs) && used <= Ids(qs)
    ensures |Unused(qs, used)| == |qs| - |used|
    decreases |qs|
  {
    if qs == [] {
      assert used == {};
    } else {
      var init := qs[..|qs| - 1];
      var last := qs[|qs| - 1];
      assert qs == init + [last];
      DistinctPrefix(qs, |qs| - 1);
      LastIdFresh(qs);
      IdsSnoc(qs);
      if last.id in used {
        UnusedIgnores(init, used, last.id);
        UnusedCount(init, used - {last.id});
      } else {
        UnusedCount(init, used);
      }
    }
  }

  lemma {:induction false} UnusedDistinct(qs: seq<Question>, used: set<string>)
    requires DistinctIds(qs)
    ensures DistinctIds(Unused(qs, used))
    decreases |qs|
  {
    if qs != [] {
      var init := qs[..|qs| - 1];
      var last := qs[|qs| - 1];
      DistinctPrefix(qs, |qs| - 1);
      UnusedDistinct(init, used);
      var u := Unused(init, used);
      forall q | q in u ensures q.id != last.id {
        var i :| 0 <= i < |init| && init[i] == q;
        assert qs[i] == q;
      }
    }
  }

  lemma SwapDistinct(s: seq<Question>, i: nat, j: nat)
    requires i < |s| && j < |s| && DistinctIds(s)
    ensures DistinctIds(Swap(s, i, j))
  {
    var r := Swap(s, i, j);
    forall x, y | 0 <= x < y < |r| ensures r[x].id != r[y].id {
      var x' := if x == i then j else if x == j then i else x;
      var y' := if y == i then j else if y == j then i else y;
      assert r[x] == s[x'] && r[y] == s[y'] && x' != y';
    }
  }

  /** Shuffling never brings two questions of one id together. */
  lemma {:induction false} ShuffleFromDistinct(s: seq<Question>, i: int, random: nat -> real, k: nat)
    requires IsRandomStream(random) && i < |s| && DistinctIds(s)
    ensures DistinctIds(ShuffleFrom(s, i, random, k))
    decreases i
  {
    if i > 0 {
      var j := RandomIndex(random(k), i + 1);
      SwapDistinct(s, i, j);
      ShuffleFromDistinct(Swap(s, i, j), i - 1, random, k + 1);
    }
  }

  lemma ShuffledFacts(s: seq<Question>, random: nat -> real, k: nat)
    requires IsRandomStream(random)
    ensures |Shuffled(s, random, k)| == |s|
    ensures forall q :: q in Shuffled(s, random, k) <==> q in s
    ensures DistinctIds(s) ==> DistinctIds(Shuffled(s, random, k))
  {
    ShuffledPermutes(s, random, k);
    var r := Shuffled(s, random, k);
    forall q ensures q in r <==> q in s {
      assert q in r <==> q in multiset(r);
    }
    if DistinctIds(s) {
      ShuffleFromDistinct(s, |s| - 1, random, k);
    }
  }

  /** The copies the backfill pushes are fresh copies of entries of the
      list, and carry distinct ids when the list does. */
  lemma PopClonesFacts(s: seq<Question>, n: nat)
    requires n <= |s|
    ensures forall c :: c in PopClones(s, n) ==> FromPool(c, s)
    ensures DistinctIds(s) ==> DistinctIds(PopClones(s, n))
  {
    var r := PopClones(s, n);
    forall c | c in r ensures FromPool(c, s) {
      var m :| 0 <= m < n && r[m] == c;
      assert s[|s| - 1 - m] in s;
    }
    if DistinctIds(s) {
      forall i, j | 0 <= i < j < n ensures r[i].id != r[j].id {
        assert r[i].id == s[|s| - 1 - i].id && r[j].id == s[|s| - 1 - j].id;
      }
    }
  }

  lemma DistinctConcat(a: seq<Question>, b: seq<Question>)
    requires DistinctIds(a) && DistinctIds(b)
    requires forall x, y :: x in a && y in b ==> x.id != y.id
    ensures DistinctIds(a + b)
  {
    var c := a + b;
    forall i, j | 0 <= i < j < |c| ensures c[i].id != c[j].id {
      if j < |a| {
        assert c[i] == a[i] && c[j] == a[j];
      } else if i >= |a| {
        assert c[i] == b[i - |a|] && c[j] == b[j - |a|];
      } else {
        assert c[i] in a && c[j] in b;
      }
    }
  }

  // ---------------------------------------------------------------------------
  // The invariant of the quota phase, on plain values.

  /** Every bucket holds pool entries of its own key. */
  ghost predicate BucketsFromPool(pool: seq<Question>, buckets: map<string, seq<Question>>) {
    forall k :: k in buckets ==> forall q :: q in buckets[k] ==> q in pool && BucketKey(q) == k
  }

  /** Every pool entry not yet used is still in its bucket. */
  ghost predicate Stocked(pool: seq<Question>, buckets: map<string, seq<Question>>, used: set<string>) {
    forall q :: q in pool ==> q.id in used || (BucketKey(q) in buckets && q in buckets[BucketKey(q)])
  }

  /** `used` are the ids of `picked`, which has no repeated id and only
      copies of pool entries. */
  ghost predicate PickedValid(pool: seq<Question>, used: set<string>, picked: seq<Question>) {
    used == Ids(picked) && |used| == |picked|
    && forall q :: q in picked ==> FromPool(q, pool)
  }

  /** Taking a copy of the unused pool entry `q` keeps `picked` valid. */
  lemma TakeValid(pool: seq<Question>, used: set<string>, picked: seq<Question>, q: Question)
    requires PickedValid(pool, used, picked) && q in pool && q.id !in used
    ensures PickedValid(pool, used + {q.id}, picked + [Clone(q)])
  {
    var p' := picked + [Clone(q)];
    assert Ids(p') == Ids(picked) + {q.id} by {
      forall c | c in p' ensures c in picked || c == Clone(q) { }
    }
  }

  /** Every question of `start` is either still in `bucket` or has a used id. */
  lemma PoppedUsed(start: seq<Question>, bucket: seq<Question>, used: set<string>)
    requires |bucket| <= |start| && bucket == start[..|bucket|]
    requires forall p :: p in start[|bucket|..] ==> p.id in used
    ensures forall p :: p in start ==> p in bucket || p.id in used
  {
    forall p | p in start ensures p in bucket || p.id in used {
      var i :| 0 <= i < |start| && start[i] == p;
      if i < |bucket| {
        assert bucket[i] == p;
      } else {
        assert start[|bucket|..][i - |bucket|] == p;
      }
    }
  }

  /** Storing a prefix of a bucket back keeps every bucket within the pool. */
  lemma PutPrefixFromPool(pool: seq<Question>, m: map<string, seq<Question>>, key: string, bucket: seq<Question>)
    requires BucketsFromPool(pool, m) && key in m
    requires |bucket| <= |m[key]| && bucket == m[key][..|bucket|]
    ensures BucketsFromPool(pool, m[key := bucket])
  {
    var m' := m[key := bucket];
    forall k | k in m' ensures forall p :: p in m'[k] ==> p in pool && BucketKey(p) == k {
      if k == key {
        forall p | p in bucket ensures p in m[key] { }
      }
    }
  }

  /** Storing back a bucket that lost only used questions keeps the unused
      pool entries stocked. */
  lemma PutStocked(pool: seq<Question>, m: map<string, seq<Question>>, used: set<string>, used': set<string>,
                   key: string, start: seq<Question>, bucket: seq<Question>)
    requires Stocked(pool, m, used) && used <= used'
    requires start == Lookup(m, key)
    requires forall p :: p in start ==> p in bucket || p.id in used'
    ensures Stocked(pool, if key in m then m[key := bucket] else m, used')
  {
    var m' := if key in m then m[key := bucket] else m;
    forall p | p in pool ensures p.id in used' || (BucketKey(p) in m' && p in m'[BucketKey(p)]) {
      if p.id !in used && BucketKey(p) == key {
        assert p in start;
      }
    }
  }

  /** The bucket of key `k`, empty when the key has none. */
  function Lookup(m: map<string, seq<Question>>, k: string): seq<Question> {
    if k in m then m[k] else []
  }

  /** The popped bucket written back: JavaScript pops the array that the map
      holds, so a key the map lacks stays absent. */
  function Put(m: map<string, seq<Question>>, k: string, b: seq<Question>): map<string, seq<Question>> {
    if k in m then m[k := b] else m
  }

  /** The pops of one `pickOne` pass over the bucket `key`, which held
      `start` and now holds `bucket`: every question popped before the last
      was used, and the last, when `found`, is taken. */
  lemma PopValid(pool: seq<Question>, m: map<string, seq<Question>>, used: set<string>, picked: seq<Question>,
                 key: string, start: seq<Question>, bucket: seq<Question>, found: bool, q: Question)
    requires BucketsFromPool(pool, m) && Stocked(pool, m, used) && PickedValid(pool, used, picked)
    requires start == Lookup(m, key)
    requires |bucket| <= |start| && bucket == start[..|bucket|]
    requires !found ==> forall p :: p in start[|bucket|..] ==> p.id in used
    requires found ==>
      && |bucket| < |start| && q == start[|bucket|] && q.id !in used
      && forall p :: p in start[|bucket| + 1..] ==> p.id in used
    ensures var m' := Put(m, key, bucket);
      var used' := if found then used + {q.id} else used;
      var picked' := if found then picked + [Clone(q)] else picked;
      BucketsFromPool(pool, m') && Stocked(pool, m', used') && PickedValid(pool, used', picked')
  {
    var used' := if found then used + {q.id} else used;
    forall p | p in start[|bucket|..] ensures p.id in used' {
      if found {
        assert start[|bucket|..] == [q] + start[|bucket| + 1..];
      }
    }
    PoppedUsed(start, bucket, used');
    if key in m {
      PutPrefixFromPool(pool, m, key, bucket);
    }
    PutStocked(pool, m, used, used', key, start, bucket);
    if found {
      assert q in start;
      TakeValid(pool, used, picked, q);
    }
  }

  /** `order` lists the keys of `m`, each once. */
  ghost predicate KeysInOrder(m: map<string, seq<Question>>, order: seq<string>) {
    && (forall k :: k in m <==> k in order)
    && (forall a, b :: 0 <= a < b < |order| ==> order[a] != order[b])
  }

  /** `m` holds the questions of `qs` by key. */
  ghost predicate BucketsOf(qs: seq<Question>, m: map<string, seq<Question>>) {
    forall k :: Lookup(m, k) == BucketOf(qs, k)
  }

  /** The keys of `qs` in the order they first appear: the order in which
      `byBucket` gains its keys, which is the order its `values()` follow. */
  function FirstSeen(qs: seq<Question>): seq<string>
    decreases |qs|
  {
    if qs == [] then []
    else
      var prior := FirstSeen(qs[..|qs| - 1]);
      var k := BucketKey(qs[|qs| - 1]);
      if k in prior then prior else prior + [k]
  }

  /** Every key of `qs` is listed once, and nothing else is. */
  lemma {:induction false} FirstSeenKeys(qs: seq<Question>)
    ensures forall k :: k in FirstSeen(qs) <==> exists q :: q in qs && BucketKey(q) == k
    ensures forall a, b :: 0 <= a < b < |FirstSeen(qs)| ==> FirstSeen(qs)[a] != FirstSeen(qs)[b]
    decreases |qs|
  {
    if qs != [] {
      var init := qs[..|qs| - 1];
      FirstSeenKeys(init);
      assert qs == init + [qs[|qs| - 1]];
      forall k ensures k in FirstSeen(qs) <==> exists q :: q in qs && BucketKey(q) == k {
        if k in FirstSeen(qs) && k != BucketKey(qs[|qs| - 1]) {
          var q :| q in init && BucketKey(q) == k;
          assert q in qs;
        }
        if exists q :: q in qs && BucketKey(q) == k {
          var q :| q in qs && BucketKey(q) == k;
          if q != qs[|qs| - 1] {
            assert q in init;
          }
        }
      }
    }
  }

  /** `m` holds the questions of `qs` by key, and `order` its keys in the
      order they first appear in `qs`. */
  ghost predicate Distributed(qs: seq<Question>, m: map<string, seq<Question>>, order: seq<string>) {
    KeysInOrder(m, order) && BucketsOf(qs, m) && order == FirstSeen(qs)
  }

  /** A new key goes to the end of the insertion order. */
  lemma KeysStep(m: map<string, seq<Question>>, order: seq<string>, k: string, b: seq<Question>,
                 m': map<string, seq<Question>>, order': seq<string>)
    requires KeysInOrder(m, order)
    requires order' == (if k in m then order else order + [k]) && m' == m[k := b]
    ensures KeysInOrder(m', order')
  {
  }

  /** Appending `q` to the bucket of its key gives the buckets of one more
      question. */
  lemma BucketsStep(qs: seq<Question>, q: Question, m: map<string, seq<Question>>, m': map<string, seq<Question>>)
    requires BucketsOf(qs, m)
    requires m' == m[BucketKey(q) := Lookup(m, BucketKey(q)) + [q]]
    ensures BucketsOf(qs + [q], m')
  {
    forall x ensures Lookup(m', x) == BucketOf(qs + [q], x) {
      BucketOfSnoc(qs, q, x);
    }
  }

  /** The distribution of one more question: the key `k` of `q` gets an empty
      bucket when it has none (becoming the last key), then `q` is appended
      to the bucket of `k`. */
  method Insert(ghost qs: seq<Question>, q: Question, m: map<string, seq<Question>>, order: seq<string>)
    returns (m': map<string, seq<Question>>, order': seq<string>)
    requires Distributed(qs, m, order)
    ensures Distributed(qs + [q], m', order')
  {
    var k := BucketKey(q);
    order' := if k in m then order else order + [k];
    m' := m[k := Lookup(m, k) + [q]];
    assert (qs + [q])[..|qs|] == qs;
    KeysStep(m, order, k, Lookup(m, k) + [q], m', order');
    BucketsStep(qs, q, m, m');
  }

  /** The loop of `buildQuizSet` that distributes the pool into buckets:
      `byBucket` as a map, with its keys in insertion order. */
  method Distribute(pool: seq<Question>) returns (m: map<string, seq<Question>>, order: seq<string>)
    ensures Distributed(pool, m, order)
  {
    m, order := map[], [];
    ghost var done: seq<Question> := [];
    var i := 0;
    while i < |pool|
      invariant 0 <= i <= |pool| && done == pool[..i] && Distributed(done, m, order)
    {
      m, order := Insert(done, pool[i], m, order);
      done := done + [pool[i]];
      i := i + 1;
    }
    assert done == pool;
  }

  /** The popping loop of `pickOne`, which runs while the bucket is not
      empty: pop until a question whose id is not in `used` turns up. */
  method PopUntilUnused(start: seq<Question>, used: set<string>) returns (bucket: seq<Question>, found: bool, q: Question)
    ensures |bucket| <= |start| && bucket == start[..|bucket|]
    ensures found <==> exists p :: p in start && p.id !in used
    ensures !found ==> bucket == [] && forall p :: p in start ==> p.id in used
    ensures found ==>
      && |bucket| < |start| && q == start[|bucket|] && q.id !in used
      && forall p :: p in start[|bucket| + 1..] ==> p.id in used
  {
    bucket := start;
    found := false;
    q := Question("", 0.0, MC, F, "", [], "", "", 0.0, false);
    while |bucket| > 0 && !found
      invariant |bucket| <= |start| && bucket == start[..|bucket|]
      invariant !found ==> forall p :: p in start[|bucket|..] ==> p.id in used
      invariant found ==>
        && |bucket| < |start| && q == start[|bucket|] && q.id !in used
        && forall p :: p in start[|bucket| + 1..] ==> p.id in used
    {
      q := bucket[|bucket| - 1];
      assert start[|bucket| - 1..] == [q] + start[|bucket|..];
      assert start[|bucket|..] == start[|bucket| - 1..][1..];
      bucket := bucket[..|bucket| - 1];
      found := q.id !in used;
    }
    if !found {
      assert start[0..] == start;
    } else {
      assert q in start;
    }
  }

  /** Storing the popped bucket back under `key` touches no other bucket. */
  lemma PutKeepsOthers(m: map<string, seq<Question>>, key: string, b: seq<Question>)
    ensures Put(m, key, b).Keys == m.Keys
    ensures Lookup(Put(m, key, b), key) == if key in m then b else []
    ensures forall k :: k != key ==> Lookup(Put(m, key, b), k) == Lookup(m, k)
  {
  }

  /** The buckets after `shuffleInPlace` ran on the bucket of each key of
      `keys` in turn, the first draw being `random(k)`, with the position in
      `random` after the last draw. */
  function ShuffleAll(m: map<string, seq<Question>>, keys: seq<string>, random: nat -> real, k: nat): (map<string, seq<Question>>, nat)
    requires IsRandomStream(random)
    decreases |keys|
  {
    if keys == [] then (m, k)
    else
      var prev := ShuffleAll(m, keys[..|keys| - 1], random, k);
      var key := keys[|keys| - 1];
      var b := Lookup(prev.0, key);
      (Put(prev.0, key, Shuffled(b, random, prev.1)), prev.1 + Draws(|b|))
  }

  /** One more key shuffles one more bucket. */
  lemma ShuffleAllStep(m: map<string, seq<Question>>, keys: seq<string>, n: nat, random: nat -> real, k: nat)
    requires IsRandomStream(random) && n < |keys|
    ensures var prev := ShuffleAll(m, keys[..n], random, k);
      var b := Lookup(prev.0, keys[n]);
      ShuffleAll(m, keys[..n + 1], random, k) == (Put(prev.0, keys[n], Shuffled(b, random, prev.1)), prev.1 + Draws(|b|))
  {
    assert keys[..n + 1][..n] == keys[..n];
  }

  /** Shuffling the buckets keeps their keys. */
  lemma {:induction false} ShuffleAllKeys(m: map<string, seq<Question>>, keys: seq<string>, random: nat -> real, k: nat)
    requires IsRandomStream(random)
    ensures ShuffleAll(m, keys, random, k).0.Keys == m.Keys && ShuffleAll(m, keys, random, k).1 >= k
    decreases |keys|
  {
    if keys != [] {
      var prev := ShuffleAll(m, keys[..|keys| - 1], random, k);
      ShuffleAllKeys(m, keys[..|keys| - 1], random, k);
      PutKeepsOthers(prev.0, keys[|keys| - 1], Shuffled(Lookup(prev.0, keys[|keys| - 1]), random, prev.1));
    }
  }

  /** Shuffling the buckets keeps the keys and the elements of every bucket,
      and only moves forward in `random`. */
  lemma {:induction false} ShuffleAllPermutes(m: map<string, seq<Question>>, keys: seq<string>, random: nat -> real, k: nat)
    requires IsRandomStream(random)
    ensures var r := ShuffleAll(m, keys, random, k);
      && r.0.Keys == m.Keys && r.1 >= k
      && forall key :: multiset(Lookup(r.0, key)) == multiset(Lookup(m, key))
    decreases |keys|
  {
    if keys != [] {
      var prev := ShuffleAll(m, keys[..|keys| - 1], random, k);
      ShuffleAllPermutes(m, keys[..|keys| - 1], random, k);
      var key := keys[|keys| - 1];
      var b := Lookup(prev.0, key);
      ShuffledPermutes(b, random, prev.1);
      PutKeepsOthers(prev.0, key, Shuffled(b, random, prev.1));
    }
  }

  /** Shuffled buckets keep the bucket half of the quota invariant. */
  lemma ShuffleAllValid(pool: seq<Question>, m: map<string, seq<Question>>, keys: seq<string>, random: nat -> real, k: nat, used: set<string>)
    requires IsRandomStream(random) && BucketsFromPool(pool, m) && Stocked(pool, m, used)
    ensures var m' := ShuffleAll(m, keys, random, k).0;
      BucketsFromPool(pool, m') && Stocked(pool, m', used)
  {
    ShuffleAllPermutes(m, keys, random, k);
    PermutedValid(pool, m, ShuffleAll(m, keys, random, k).0, used);
  }

  /** Buckets with the same keys holding the same elements keep the bucket
      half of the quota invariant. */
  lemma PermutedValid(pool: seq<Question>, m: map<string, seq<Question>>, m': map<string, seq<Question>>, used: set<string>)
    requires m'.Keys == m.Keys && forall key :: multiset(Lookup(m', key)) == multiset(Lookup(m, key))
    requires BucketsFromPool(pool, m) && Stocked(pool, m, used)
    ensures BucketsFromPool(pool, m') && Stocked(pool, m', used)
  {
    forall key, q | key in m' ensures q in m'[key] <==> q in m[key] {
      assert multiset(Lookup(m', key)) == multiset(Lookup(m, key));
      assert q in m'[key] <==> q in multiset(m'[key]);
      assert q in m[key] <==> q in multiset(m[key]);
    }
  }

  // ---------------------------------------------------------------------------
  // Bucket keys and the quota bookkeeping.

  /** The number of `|` characters in `s`. */
  function Bars(s: string): nat {
    if s == [] then 0 else (if s[0] == '|' then 1 else 0) + Bars(s[1..])
  }

  lemma {:induction false} BarsConcat(s: string, t: string)
    ensures Bars(s + t) == Bars(s) + Bars(t)
    decreases |s|
  {
    if s == [] {
      assert s + t == t;
    } else {
      assert (s + t)[1..] == s[1..] + t;
      BarsConcat(s[1..], t);
    }
  }

  lemma {:induction false} NoBars(s: string)
    ensures Bars(s) == 0 <==> '|' !in s
    decreases |s|
  {
    if s != [] {
      NoBars(s[1..]);
      assert s == [s[0]] + s[1..];
    }
  }

  /** Two strings without `|`, each followed by something that starts with
      `|`, split a string the same way. */
  lemma SplitAtBar(x: string, rx: string, a: string, ra: string)
    requires '|' !in x && '|' !in a && rx != [] && ra != [] && rx[0] == '|' && ra[0] == '|'
    requires x + rx == a + ra
    ensures x == a && rx == ra
  {
    var s := x + rx;
    assert s[|x|] == '|' && s[|a|] == '|';
    assert forall k :: 0 <= k < |a| ==> s[k] == a[k] && a[k] in a;
    assert forall k :: 0 <= k < |x| ==> s[k] == x[k] && x[k] in x;
    assert |x| == |a|;
    assert x == s[..|x|] && a == s[..|a|];
    assert rx == s[|x|..] && ra == s[|a|..];
  }

  lemma KindNamePlain(t: Kind)
    ensures '|' !in KindName(t)
  {
    match t
    case MC => assert KindName(t) == ['M', 'C'];
    case TF => assert KindName(t) == ['T', 'F'];
  }

  /** A bucket key names its area, difficulty and type unambiguously as long
      as the requested labels hold no `|`: whatever area and difficulty a
      question has, its key equals `keyOf(area, diff, t)` only when they are
      `area` and `diff` and its type is `t`. */
  lemma KeySplit(x: string, y: string, t: Kind, a: string, d: string, t': Kind)
    requires '|' !in a && '|' !in d
    requires KeyOf(x, y, t) == KeyOf(a, d, t')
    ensures x == a && y == d && t == t'
  {
    var tx, ta := KindName(t), KindName(t');
    var ry, rd := "||" + tx, "||" + ta;
    var rx, ra := "||" + (y + ry), "||" + (d + rd);
    assert KeyOf(x, y, t) == x + rx && KeyOf(a, d, t') == a + ra;
    assert Bars("||") == 2;
    KindNamePlain(t);
    KindNamePlain(t');
    NoBars(tx);
    NoBars(ta);
    BarsConcat("||", tx);
    BarsConcat("||", ta);
    BarsConcat(y, ry);
    BarsConcat(d, rd);
    BarsConcat("||", y + ry);
    BarsConcat("||", d + rd);
    BarsConcat(x, rx);
    BarsConcat(a, ra);
    NoBars(a);
    NoBars(d);
    NoBars(x);
    NoBars(y);
    SplitAtBar(x, rx, a, ra);
    assert y + ry == rx[2..] == ra[2..] == d + rd;
    SplitAtBar(y, ry, d, rd);
    assert tx == ry[2..] == rd[2..] == ta;
  }

  /** The quota labels hold no `|`. */
  lemma LabelsPlain(i: nat)
    requires i < 4
    ensures '|' !in AREA_ORDER[i] && '|' !in DIFF_ORDER[i]
  {
  }

  /** How many questions of `qs` have difficulty `diff`. */
  function CountDiff(qs: seq<Question>, diff: string): nat
    decreases |qs|
  {
    if qs == [] then 0
    else CountDiff(qs[..|qs| - 1], diff) + (if qs[|qs| - 1].difficulty == diff then 1 else 0)
  }

  /** The count of a concatenation is the sum of the counts. */
  lemma {:induction false} CountDiffConcat(a: seq<Question>, b: seq<Question>, diff: string)
    ensures CountDiff(a + b, diff) == CountDiff(a, diff) + CountDiff(b, diff)
    decreases |b|
  {
    if b == [] {
      assert a + b == a;
    } else {
      assert (a + b)[..|a + b| - 1] == a + b[..|b| - 1];
      CountDiffConcat(a, b[..|b| - 1], diff);
    }
  }

  /** Removing the entry at `i` removes it from the multiset. */
  lemma MultisetRemove(a: seq<Question>, x: Question, b: seq<Question>, i: nat)
    requires multiset(a + [x]) == multiset(b) && i < |b| && b[i] == x
    ensures multiset(b[..i] + b[i + 1..]) == multiset(a)
  {
    assert b == b[..i] + [x] + b[i + 1..];
    var b' := b[..i] + b[i + 1..];
    forall t ensures multiset(b')[t] == multiset(a)[t] {
      assert multiset(b)[t] == multiset(b[..i])[t] + multiset([x])[t] + multiset(b[i + 1..])[t];
      assert multiset(a + [x])[t] == multiset(a)[t] + multiset([x])[t];
    }
  }

  /** Removing the entry at `i` lowers the count of its difficulty by one. */
  lemma CountDiffRemove(b: seq<Question>, i: nat, diff: string)
    requires i < |b|
    ensures CountDiff(b, diff) == CountDiff(b[..i] + b[i + 1..], diff) + (if b[i].difficulty == diff then 1 else 0)
  {
    assert b == b[..i] + [b[i]] + b[i + 1..];
    CountDiffConcat(b[..i] + [b[i]], b[i + 1..], diff);
    CountDiffConcat(b[..i], [b[i]], diff);
    CountDiffConcat(b[..i], b[i + 1..], diff);
    assert [b[i]][..0] == [];
  }

  /** Reordering a sequence keeps each difficulty's count. */
  lemma {:induction false} CountDiffPermutation(a: seq<Question>, b: seq<Question>, diff: string)
    requires multiset(a) == multiset(b)
    ensures CountDiff(a, diff) == CountDiff(b, diff)
    decreases |a|
  {
    if a == [] {
      assert |b| == |multiset(b)| == 0;
    } else {
      var a', x := a[..|a| - 1], a[|a| - 1];
      assert a == a' + [x];
      assert x in multiset(b);
      var i :| 0 <= i < |b| && b[i] == x;
      MultisetRemove(a', x, b, i);
      CountDiffPermutation(a', b[..i] + b[i + 1..], diff);
      CountDiffRemove(b, i, diff);
    }
  }

  /** No unused pool entry is left in the two type buckets of `area` and `diff`. */
  ghost predicate NoStock(pool: seq<Question>, used: set<string>, area: string, diff: string) {
    NoneLeft(pool, used, KeyOf(area, diff, MC)) && NoneLeft(pool, used, KeyOf(area, diff, TF))
  }

  /** No unused pool entry has the key `key`. */
  ghost predicate NoneLeft(pool: seq<Question>, used: set<string>, key: string) {
    forall q :: q in pool && q.id !in used ==> BucketKey(q) != key
  }

  /** `picked` and `used` are `picked0` and `used0` after taking a copy of one
      unused pool entry of `area` and `diff`. */
  ghost predicate TookOne(pool: seq<Question>, used0: set<string>, picked0: seq<Question>,
                          used: set<string>, picked: seq<Question>, area: string, diff: string) {
    exists q :: (q in pool && q.id !in used0
      && (BucketKey(q) == KeyOf(area, diff, MC) || BucketKey(q) == KeyOf(area, diff, TF))
      && picked == picked0 + [Clone(q)] && used == used0 + {q.id})
  }

  /** `picked` and `used` are `picked0` and `used0` after taking a copy of one
      unused pool entry from the bucket `key`. */
  ghost predicate TookFrom(pool: seq<Question>, used0: set<string>, picked0: seq<Question>,
                           used: set<string>, picked: seq<Question>, key: string) {
    exists q :: (q in pool && q.id !in used0 && BucketKey(q) == key
      && picked == picked0 + [Clone(q)] && used == used0 + {q.id})
  }

  /** The type `pickOne` tries first: MC unless fewer MC than TF questions
      are still wanted. */
  function Preferred(targetMC: int, targetTF: int): Kind {
    if targetMC >= targetTF then MC else TF
  }

  /** A type target after one question of that type was taken: one less,
      but not below zero. */
  function Decremented(target: int): (r: int)
    ensures r >= 0 && r <= (if target > 0 then target else 0)
    ensures target > 0 ==> r == target - 1
  {
    if target - 1 > 0 then target - 1 else 0
  }

  /** Every area still wanted by `tArea` is out of stock for `diff`. */
  ghost predicate Exhausted(pool: seq<Question>, used: set<string>, tArea: seq<int>, diff: string) {
    forall a :: 0 <= a < |tArea| && a < |AREA_ORDER| && tArea[a] > 0 ==> NoStock(pool, used, AREA_ORDER[a], diff)
  }

  /** Taking a question for a quota label adds one question of that
      difficulty and none of any other. */
  lemma TookOneFacts(pool: seq<Question>, used0: set<string>, picked0: seq<Question>,
                     used: set<string>, picked: seq<Question>, area: string, diff: string)
    requires TookOne(pool, used0, picked0, used, picked, area, diff)
    requires '|' !in area && '|' !in diff
    ensures |picked| == |picked0| + 1 && used0 <= used
    ensures forall x :: CountDiff(picked, x) == CountDiff(picked0, x) + (if x == diff then 1 else 0)
  {
    var q :| (q in pool && q.id !in used0
      && (BucketKey(q) == KeyOf(area, diff, MC) || BucketKey(q) == KeyOf(area, diff, TF))
      && picked == picked0 + [Clone(q)] && used == used0 + {q.id});
    if BucketKey(q) == KeyOf(area, diff, MC) {
      KeySplit(q.area, q.difficulty, q.kind, area, diff, MC);
    } else {
      KeySplit(q.area, q.difficulty, q.kind, area, diff, TF);
    }
    assert picked[..|picked| - 1] == picked0;
  }

  /** Out of stock in every area `Needing` lists is out of stock in every
      area still wanted. */
  lemma NoneFound(pool: seq<Question>, used: set<string>, tArea: seq<int>, diff: string)
    requires |tArea| == |AREA_ORDER|
    requires forall x :: x in Needing(tArea, 0) ==> NoStock(pool, used, AREA_ORDER[x], diff)
    ensures Exhausted(pool, used, tArea, diff)
  {
    forall a | 0 <= a < |tArea| && tArea[a] > 0 ensures NoStock(pool, used, AREA_ORDER[a], diff) {
      assert a in Needing(tArea, 0);
    }
  }

  /** Less stock and fewer wanted areas keep a difficulty exhausted. */
  lemma ExhaustedMono(pool: seq<Question>, used: set<string>, used': set<string>, t: seq<int>, t': seq<int>, diff: string)
    requires Exhausted(pool, used, t, diff) && used <= used'
    requires Below(t', t)
    ensures Exhausted(pool, used', t', diff)
  {
  }

  function Min(a: int, b: int): int {
    if a <= b then a else b
  }

  /** While some difficulty target is positive, some area is still wanted:
      both tables sum to the same number and neither goes negative. */
  lemma AreaWanted(tArea: seq<int>, tDiff: seq<int>, d: nat)
    requires |tDiff| == 4 && |tArea| == 4 && d < 4 && tDiff[d] > 0 && Total(tArea) == Total(tDiff)
    requires forall i :: 0 <= i < 4 ==> tDiff[i] >= 0
    ensures Needing(tArea, 0) != []
  {
    assert tArea[0] > 0 || tArea[1] > 0 || tArea[2] > 0 || tArea[3] > 0;
    var k :| 0 <= k < 4 && tArea[k] > 0;
    assert k in Needing(tArea, 0);
  }

  /** The bookkeeping of the difficulty loop: the targets never go negative,
      every question picked so far used up one unit of the difficulty target
      and of the area target, and each difficulty tier holds as many picks as
      its target went down. */
  ghost predicate CountsValid(picked: seq<Question>, tDiff: seq<int>, tArea: seq<int>) {
    |tDiff| == |DIFF_ORDER| && |tArea| == |AREA_ORDER|
    && (forall i :: 0 <= i < |DIFF_ORDER| ==> tDiff[i] >= 0 && tArea[i] >= 0)
    && |picked| + Total(tDiff) == QUIZ_SIZE
    && Total(tArea) == Total(tDiff)
    && forall i :: 0 <= i < |DIFF_ORDER| ==> CountDiff(picked, DIFF_ORDER[i]) + tDiff[i] == DIFF_QUOTA[i]
  }

  /** A question taken for difficulty `d` (from area `at`) with the drawn
      area `area` lowered keeps the bookkeeping. */
  lemma CountsStep(pool: seq<Question>, used0: set<string>, picked0: seq<Question>, used: set<string>, picked: seq<Question>,
                   tDiff: seq<int>, tArea: seq<int>, d: nat, at: nat, area: nat, tDiff': seq<int>, tArea': seq<int>)
    requires CountsValid(picked0, tDiff, tArea)
    requires d < |DIFF_ORDER| && tDiff[d] > 0 && at < |AREA_ORDER| && area < |AREA_ORDER| && tArea[area] > 0
    requires TookOne(pool, used0, picked0, used, picked, AREA_ORDER[at], DIFF_ORDER[d])
    requires tDiff' == tDiff[d := tDiff[d] - 1] && tArea' == tArea[area := tArea[area] - 1]
    ensures CountsValid(picked, tDiff', tArea')
    ensures used0 <= used && |picked| == |picked0| + 1
  {
    LabelsPlain(at);
    LabelsPlain(d);
    TookOneFacts(pool, used0, picked0, used, picked, AREA_ORDER[at], DIFF_ORDER[d]);
    DiffOrderDistinct();
    assert Total(tDiff') == Total(tDiff) - 1 && Total(tArea') == Total(tArea) - 1;
    forall i | 0 <= i < |DIFF_ORDER|
      ensures CountDiff(picked, DIFF_ORDER[i]) + tDiff'[i] == DIFF_QUOTA[i]
    {
      assert DIFF_ORDER[i] == DIFF_ORDER[d] <==> i == d;
    }
  }

  /** The area at the position drawn by `r` among the areas still wanted:
      an area whose target is still positive. */
  function DrawnArea(tArea: seq<int>, r: real): (a: nat)
    requires Needing(tArea, 0) != [] && 0.0 <= r < 1.0
    ensures a < |tArea| && tArea[a] > 0
  {
    var needing := Needing(tArea, 0);
    var a := needing[RandomIndex(r, |needing|)];
    assert a in needing;
    a
  }

  /** Every entry of `t'` is at most the one of `t`. */
  ghost predicate Below(t': seq<int>, t: seq<int>) {
    |t'| == |t| && forall a :: 0 <= a < |t| ==> t'[a] <= t[a]
  }

  /** `t'` and `t` agree everywhere but at `d`. */
  ghost predicate Same(t': seq<int>, t: seq<int>, d: nat) {
    |t'| == |t| && forall e :: 0 <= e < |t| && e != d ==> t'[e] == t[e]
  }

  /** Lowering one entry keeps the table below itself. */
  lemma Lowered(t: seq<int>, a: nat, t': seq<int>)
    requires a < |t| && t' == t[a := t[a] - 1]
    ensures Below(t', t)
  {
  }

  /** One round of the tier loop lowers the tier's own target and nothing
      else of the difficulty table, and lowers the area table. */
  lemma TablesStep(tDiff: seq<int>, tArea: seq<int>, curDiff: seq<int>, curArea: seq<int>,
                   d: nat, a: nat, nextDiff: seq<int>, nextArea: seq<int>)
    requires Same(curDiff, tDiff, d) && Below(curArea, tArea) && d < |curDiff| && a < |curArea|
    requires nextDiff == curDiff[d := curDiff[d] - 1] && nextArea == curArea[a := curArea[a] - 1]
    ensures Same(nextDiff, tDiff, d) && Below(nextArea, tArea) && nextDiff[d] < curDiff[d]
  {
    Lowered(curArea, a, nextArea);
    BelowTrans(nextArea, curArea, tArea);
  }

  lemma BelowTrans(t'': seq<int>, t': seq<int>, t: seq<int>)
    requires Below(t'', t') && Below(t', t)
    ensures Below(t'', t)
  {
  }

  /** The quota tables start the bookkeeping with nothing picked. */
  lemma InitialCounts()
    ensures CountsValid([], DIFF_QUOTA, AREA_QUOTA)
  {

  }

  lemma DiffOrderDistinct()
    ensures forall i, j :: 0 <= i < j < |DIFF_ORDER| ==> DIFF_ORDER[i] != DIFF_ORDER[j]
  {
    assert DIFF_ORDER[0][0] == 'E' && DIFF_ORDER[1][0] == 'H' && DIFF_ORDER[2][0] == 'M' && DIFF_ORDER[3][0] == 'E';
    assert |DIFF_ORDER[0]| == 5 && |DIFF_ORDER[3]| == 4;
  }

  /** `bucket` is what popping `start` leaves: with `found`, everything
      from `start`'s last entry whose id is not in `used` on is popped, and
      that entry is `q`; otherwise every entry was used and all are popped. */
  ghost predicate PoppedTo(start: seq<Question>, bucket: seq<Question>, used: set<string>, found: bool, q: Question) {
    && |bucket| <= |start| && bucket == start[..|bucket|]
    && (!found ==> bucket == [] && forall p :: p in start ==> p.id in used)
    && (found ==>
          && |bucket| < |start| && q == start[|bucket|] && q.id !in used
          && forall p :: p in start[|bucket| + 1..] ==> p.id in used)
  }

  /** The state change of one pass of `pickOne` over the bucket `key` of
      `m`: the bucket popped down to its last unused question, which is taken. */
  method Popped(pool: seq<Question>, m: map<string, seq<Question>>, used: set<string>, picked: seq<Question>, key: string)
    returns (found: bool, m': map<string, seq<Question>>, used': set<string>, picked': seq<Question>, ghost q: Question)
    requires BucketsFromPool(pool, m) && Stocked(pool, m, used) && PickedValid(pool, used, picked)
    ensures BucketsFromPool(pool, m') && Stocked(pool, m', used') && PickedValid(pool, used', picked')
    ensures found <==> exists q :: q in Lookup(m, key) && q.id !in used
    ensures PoppedTo(Lookup(m, key), Lookup(m', key), used, found, q)
    ensures found ==> q in Lookup(m, key) && q.id !in used && q in pool && BucketKey(q) == key
    ensures found ==> picked' == picked + [Clone(q)] && used' == used + {q.id}
    ensures !found ==> picked' == picked && used' == used && Lookup(m', key) == [] && NoneLeft(pool, used, key)
    ensures m'.Keys == m.Keys
    ensures forall k :: k != key ==> Lookup(m', k) == Lookup(m, k)
  {
    var start := Lookup(m, key);
    var bucket, top;
    bucket, found, top := PopUntilUnused(start, used);
    assert start[0..] == start;
    PopValid(pool, m, used, picked, key, start, bucket, found, top);
    PutKeepsOthers(m, key, bucket);
    m' := Put(m, key, bucket);
    used' := if found then used + {top.id} else used;
    picked' := if found then picked + [Clone(top)] else picked;
    q := top;
    if found {
      assert top in start && key in m;
    } else {
      assert forall p :: p in pool && p.id !in used ==> p in Lookup(m', BucketKey(p));
    }
  }

  // ---------------------------------------------------------------------------
  // The backfill.

  /** `picked` after the backfill of `buildQuizSet`: when fewer than
      `QUIZ_SIZE` questions were picked, the unused pool entries are
      shuffled (the first draw being `random(k)`) and copies of them are
      popped from the end until the quiz is full or they run out. */
  function Backfilled(pool: seq<Question>, used: set<string>, picked: seq<Question>, random: nat -> real, k: nat): seq<Question>
    requires IsRandomStream(random)
  {
    if |picked| < QUIZ_SIZE then
      var rest := Shuffled(Unused(pool, used), random, k);
      picked + PopClones(rest, Min(QUIZ_SIZE - |picked|, |rest|))
    else picked
  }

  /** The backfill only appends, so no difficulty loses questions. */
  lemma BackfillKeepsCounts(pool: seq<Question>, used: set<string>, picked: seq<Question>, random: nat -> real, k: nat, diff: string)
    requires IsRandomStream(random)
    ensures CountDiff(Backfilled(pool, used, picked, random, k), diff) >= CountDiff(picked, diff)
  {
    if |picked| < QUIZ_SIZE {
      var rest := Shuffled(Unused(pool, used), random, k);
      CountDiffConcat(picked, PopClones(rest, Min(QUIZ_SIZE - |picked|, |rest|)), diff);
    }
  }

  /** One more pop appends the copy of the next entry from the end. */
  lemma PopStep(picked: seq<Question>, s: seq<Question>, n: nat)
    requires n < |s|
    ensures picked + PopClones(s, n) + [Clone(s[|s| - 1 - n])] == picked + PopClones(s, n + 1)
  {
    AppendAssoc(picked, PopClones(s, n), [Clone(s[|s| - 1 - n])]);
  }

  /** The backfill loop: copies of the entries taken from the end of `rest`
      are appended to `picked` until it holds `QUIZ_SIZE` questions or
      `rest` is used up. */
  method PopInto(picked0: seq<Question>, rest: seq<Question>) returns (picked: seq<Question>)
    requires |picked0| < QUIZ_SIZE
    ensures picked == picked0 + PopClones(rest, Min(QUIZ_SIZE - |picked0|, |rest|))
  {
    picked := picked0;
    var len := |rest|;
    while |picked| < QUIZ_SIZE && len > 0
      invariant 0 <= len <= |rest|
      invariant picked == picked0 + PopClones(rest, |rest| - len)
      invariant |picked| <= QUIZ_SIZE
      decreases len
    {
      PopStep(picked0, rest, |rest| - len);
      len := len - 1;
      picked := picked + [Clone(rest[len])];
    }
    assert |rest| - len == Min(QUIZ_SIZE - |picked0|, |rest|);
  }

  /** The number of values the backfill draws. */
  function BackfillDraws(pool: seq<Question>, used: set<string>, picked: seq<Question>): nat {
    if |picked| < QUIZ_SIZE then Draws(|Unused(pool, used)|) else 0
  }

  /** The ids in use are ids of pool entries. */
  lemma UsedFromPool(pool: seq<Question>, used: set<string>, picked: seq<Question>)
    requires PickedValid(pool, used, picked)
    ensures used <= Ids(pool)
  {
    forall x | x in used ensures x in Ids(pool) {
      var q :| q in picked && q.id == x;
      var p :| p in pool && q == Clone(p);
    }
  }

  /** The backfill tops the quiz up with copies of pool entries, never past
      `QUIZ_SIZE`; when the pool has no repeated id, no id is repeated in
      the quiz and it holds `QUIZ_SIZE` questions or the whole pool. */
  lemma BackfillFacts(pool: seq<Question>, used: set<string>, picked: seq<Question>, random: nat -> real, k: nat)
    requires IsRandomStream(random) && PickedValid(pool, used, picked) && |picked| <= QUIZ_SIZE
    ensures var full := Backfilled(pool, used, picked, random, k);
      && |full| <= QUIZ_SIZE
      && (forall q :: q in full ==> FromPool(q, pool))
      && (DistinctIds(pool) ==> DistinctIds(full) && |full| == Min(QUIZ_SIZE, |pool|))
  {
    var unused := Unused(pool, used);
    var rest := Shuffled(unused, random, k);
    var n := Min(QUIZ_SIZE - |picked|, |rest|);
    ShuffledFacts(unused, random, k);
    var full := Backfilled(pool, used, picked, random, k);
    if |picked| < QUIZ_SIZE {
      PopClonesFacts(rest, n);
      var added := PopClones(rest, n);
      assert full == picked + added;
      forall c | c in added ensures FromPool(c, pool) && c.id !in used {
        var p :| p in rest && c == Clone(p);
      }
    }
    if DistinctIds(pool) {
      CountDistinct(picked);
      UsedFromPool(pool, used, picked);
      IdsCount(pool);
      assert |used| <= |pool| by { Cardinality(used, Ids(pool)); }
      if |picked| < QUIZ_SIZE {
        UnusedDistinct(pool, used);
        UnusedCount(pool, used);
        var added := PopClones(rest, n);
        DistinctConcat(picked, added);
      }
    }
  }

  lemma Cardinality(a: set<string>, b: set<string>)
    requires a <= b
    ensures |a| <= |b|
  {
    assert b == a + (b - a);
  }

  // ---------------------------------------------------------------------------
  // The sampler object.

  class QuizSampler {
    const random: nat -> real
    const pool: seq<Question>
    var byBucket: map<string, seq<Question>>
    /** The keys of `byBucket` in insertion order (the order of `values()`). */
    var bucketOrder: seq<string>
    var usedIds: set<string>
    var picked: seq<Question>
    /** `targetByType`, the only target table `pickOne` reads and updates. */
    var targetMC: int
    var targetTF: int
    /** How many values of `random` were drawn so far. */
    var draws: nat

    /** The state at the start of `buildQuizSet(all)`. */
    constructor(all: seq<Question>, random: nat -> real, draws: nat)
      ensures this.random == random && pool == Pool(all) && this.draws == draws
      ensures byBucket == map[] && bucketOrder == [] && usedIds == {} && picked == []
      ensures targetMC == MC_QUOTA && targetTF == TF_QUOTA
    {
      this.random := random;
      pool := Pool(all);
      byBucket := map[];
      bucketOrder := [];
      usedIds := {};
      picked := [];
      targetMC := MC_QUOTA;
      targetTF := TF_QUOTA;
      this.draws := draws;
    }

    /** The invariant of the quota phase. */
    ghost predicate QuotaValid()
      reads this`byBucket, this`usedIds, this`picked
    {
      BucketsFromPool(pool, byBucket) && Stocked(pool, byBucket, usedIds) && PickedValid(pool, usedIds, picked)
    }

    /** The loop that distributes the pool into buckets. */
    method FillBuckets()
      requires byBucket == map[] && bucketOrder == [] && usedIds == {} && picked == []
      modifies this`byBucket, this`bucketOrder
      ensures Distributed(pool, byBucket, bucketOrder)
      ensures QuotaValid()
    {
      var m, order := Distribute(pool);
      byBucket, bucketOrder := m, order;
      FilledValid();
    }

    /** Buckets holding exactly `BucketOf(pool, k)` satisfy the quota
        invariant before anything was picked. */
    lemma FilledValid()
      requires Distributed(pool, byBucket, bucketOrder)
      requires usedIds == {} && picked == []
      ensures QuotaValid()
    {
      forall q | q in pool ensures BucketKey(q) in byBucket && q in byBucket[BucketKey(q)] {
        BucketOfMembers(pool, BucketKey(q), q);
      }
      forall k, q | k in byBucket && q in byBucket[k] ensures q in pool && BucketKey(q) == k {
        BucketOfMembers(pool, k, q);
      }
      assert Ids(picked) == {};
    }

    /** `shuffleInPlace(arr)` on the bucket of `key`. */
    method ShuffleBucket(key: string)
      requires IsRandomStream(random) && key in byBucket
      modifies this`byBucket, this`draws
      ensures byBucket == Put(old(byBucket), key, Shuffled(Lookup(old(byBucket), key), random, old(draws)))
      ensures draws == old(draws) + Draws(|Lookup(old(byBucket), key)|)
    {
      var b := byBucket[key];
      var arr := new Question[|b|](j requires 0 <= j < |b| => b[j]);
      assert arr[..] == b;
      draws := ShuffleInPlace(arr, random, draws);
      byBucket := byBucket[key := arr[..]];
    }

    /** Every bucket is shuffled, one after the other, in the insertion order
        of their keys. */
    method ShuffleBuckets()
      requires IsRandomStream(random) && QuotaValid()
      requires forall k :: k in byBucket <==> k in bucketOrder
      modifies this`byBucket, this`draws
      ensures byBucket == ShuffleAll(old(byBucket), bucketOrder, random, old(draws)).0
      ensures draws == ShuffleAll(old(byBucket), bucketOrder, random, old(draws)).1 && draws >= old(draws)
      ensures QuotaValid()
    {
      ghost var m0, k0 := byBucket, draws;
      ShuffleInOrder();
      ShuffleAllKeys(m0, bucketOrder, random, k0);
      ShuffleAllValid(pool, m0, bucketOrder, random, k0, usedIds);
    }

    /** The loop of `ShuffleBuckets`, on the buckets alone. */
    method ShuffleInOrder()
      requires IsRandomStream(random)
      requires forall k :: k in byBucket <==> k in bucketOrder
      modifies this`byBucket, this`draws
      ensures byBucket == ShuffleAll(old(byBucket), bucketOrder, random, old(draws)).0
      ensures draws == ShuffleAll(old(byBucket), bucketOrder, random, old(draws)).1
    {
      ghost var m0, k0 := byBucket, draws;
      var n := 0;
      while n < |bucketOrder|
        invariant 0 <= n <= |bucketOrder|
        invariant byBucket == ShuffleAll(m0, bucketOrder[..n], random, k0).0
        invariant draws == ShuffleAll(m0, bucketOrder[..n], random, k0).1
      {
        ShuffleAllKeys(m0, bucketOrder[..n], random, k0);
        ShuffleAllStep(m0, bucketOrder, n, random, k0);
        ShuffleBucket(bucketOrder[n]);
        n := n + 1;
      }
      assert bucketOrder[..n] == bucketOrder;
    }

    /** One pass of `pickOne` over the bucket `key`: pop until an unused
        question turns up, take a copy of it and, when `adjust` holds, lower
        the target of type `t`. */
    method PopUnused(key: string, t: Kind, adjust: bool) returns (found: bool, ghost q: Question)
      requires QuotaValid()
      modifies this`byBucket, this`usedIds, this`picked, this`targetMC, this`targetTF
      ensures QuotaValid()
      ensures found <==> exists q :: q in Lookup(old(byBucket), key) && q.id !in old(usedIds)
      ensures PoppedTo(Lookup(old(byBucket), key), Lookup(byBucket, key), old(usedIds), found, q)
      ensures found ==> q in Lookup(old(byBucket), key) && q.id !in old(usedIds) && q in pool && BucketKey(q) == key
      ensures found ==> picked == old(picked) + [Clone(q)] && usedIds == old(usedIds) + {q.id}
      ensures !found ==> picked == old(picked) && usedIds == old(usedIds) && Lookup(byBucket, key) == []
      ensures !found ==> NoneLeft(pool, usedIds, key)
      ensures byBucket.Keys == old(byBucket.Keys)
      ensures forall k :: k != key ==> Lookup(byBucket, k) == Lookup(old(byBucket), k)
      ensures adjust && found && t == MC ==> targetMC == if old(targetMC) - 1 > 0 then old(targetMC) - 1 else 0
      ensures adjust && found && t == TF ==> targetTF == if old(targetTF) - 1 > 0 then old(targetTF) - 1 else 0
      ensures !(adjust && found && t == MC) ==> targetMC == old(targetMC)
      ensures !(adjust && found && t == TF) ==> targetTF == old(targetTF)
    {
      var m, used, taken;
      found, m, used, taken, q := Popped(pool, byBucket, usedIds, picked, key);
      var mc := if adjust && found && t == MC then (if targetMC - 1 > 0 then targetMC - 1 else 0) else targetMC;
      var tf := if adjust && found && t == TF then (if targetTF - 1 > 0 then targetTF - 1 else 0) else targetTF;
      byBucket, usedIds, picked, targetMC, targetTF := m, used, taken, mc, tf;
    }

    /** `pickOne(area, diff)`: the preferred type order first (MC first unless
        fewer MC than TF questions are still wanted), then the relaxed pass
        over MC and TF. */
    method PickOne(area: string, diff: string) returns (ok: bool, ghost t: Kind)
      requires QuotaValid()
      modifies this`byBucket, this`usedIds, this`picked, this`targetMC, this`targetTF
      ensures QuotaValid()
      ensures ok <==> !NoStock(pool, old(usedIds), area, diff)
      ensures ok ==> TookOne(pool, old(usedIds), old(picked), usedIds, picked, area, diff)
      ensures ok ==> TookFrom(pool, old(usedIds), old(picked), usedIds, picked, KeyOf(area, diff, t))
      ensures ok && t != Preferred(old(targetMC), old(targetTF)) ==>
        NoneLeft(pool, old(usedIds), KeyOf(area, diff, Preferred(old(targetMC), old(targetTF))))
      ensures targetMC == if ok && t == MC then Decremented(old(targetMC)) else old(targetMC)
      ensures targetTF == if ok && t == TF then Decremented(old(targetTF)) else old(targetTF)
      ensures !ok ==> picked == old(picked) && usedIds == old(usedIds)
    {
      KeyOfTypes(area, diff);
      var first, second := MC, TF;
      if targetMC < targetTF {
        first, second := TF, MC;
      }
      ghost var q;
      ok, q := PopUnused(KeyOf(area, diff, first), first, true);
      t := first;
      if ok {
        return;
      }
      ok, q := PopUnused(KeyOf(area, diff, second), second, true);
      t := second;
      if ok {
        return;
      }
      // Both buckets are now empty: the relaxed pass finds nothing.
      ok, q := PopUnused(KeyOf(area, diff, MC), MC, false);
      assert !ok;
      ok, q := PopUnused(KeyOf(area, diff, TF), TF, false);
      assert !ok;
    }

    /** The fallback of `buildQuizSet`: `pickOne` is tried on each wanted area
        in turn, stopping at the first that succeeds. */
    method TryAreas(needing: seq<nat>, d: nat) returns (found: bool, ghost at: nat, ghost pos: nat)
      requires QuotaValid() && d < |DIFF_ORDER|
      requires forall i :: 0 <= i < |needing| ==> needing[i] < |AREA_ORDER|
      modifies this`byBucket, this`usedIds, this`picked, this`targetMC, this`targetTF
      ensures QuotaValid()
      ensures found ==> at in needing && TookOne(pool, old(usedIds), old(picked), usedIds, picked, AREA_ORDER[at], DIFF_ORDER[d])
      ensures found ==> (pos < |needing| && at == needing[pos]
        && forall i :: 0 <= i < pos ==> NoStock(pool, old(usedIds), AREA_ORDER[needing[i]], DIFF_ORDER[d]))
      ensures !found ==> picked == old(picked) && usedIds == old(usedIds)
      ensures !found ==> forall x :: x in needing ==> NoStock(pool, usedIds, AREA_ORDER[x], DIFF_ORDER[d])
    {
      found, at, pos := false, 0, 0;
      var j := 0;
      while j < |needing|
        invariant 0 <= j <= |needing|
        invariant QuotaValid() && picked == old(picked) && usedIds == old(usedIds)
        invariant forall i :: 0 <= i < j ==> NoStock(pool, usedIds, AREA_ORDER[needing[i]], DIFF_ORDER[d])
      {
        var ok;
        ghost var t;
        ok, t := PickOne(AREA_ORDER[needing[j]], DIFF_ORDER[d]);
        if ok {
          found, at, pos := true, needing[j], j;
          return;
        }
        j := j + 1;
      }
      forall x | x in needing ensures NoStock(pool, usedIds, AREA_ORDER[x], DIFF_ORDER[d]) {
        var i :| 0 <= i < |needing| && needing[i] == x;
      }
    }


    /** `pickOne(area, diff)` and, when it fails, `pickOne(a, diff)` for each
        area `a` still wanted until one succeeds: a copy of some unused pool
        entry of difficulty `d`, from area `at`, is taken, or every area still
        wanted is out of stock for `d`. */
    method PickInArea(tArea: seq<int>, area: nat, d: nat) returns (found: bool, ghost at: nat)
      requires QuotaValid() && area < |AREA_ORDER| && d < |DIFF_ORDER| && |tArea| == |AREA_ORDER|
      modifies this`byBucket, this`usedIds, this`picked, this`targetMC, this`targetTF
      ensures QuotaValid()
      ensures found ==> at < |AREA_ORDER| && TookOne(pool, old(usedIds), old(picked), usedIds, picked, AREA_ORDER[at], DIFF_ORDER[d])
      ensures found ==> at == area || at in Needing(tArea, 0)
      ensures found && at != area ==> NoStock(pool, old(usedIds), AREA_ORDER[area], DIFF_ORDER[d])
      ensures !found ==> picked == old(picked) && usedIds == old(usedIds) && Exhausted(pool, usedIds, tArea, DIFF_ORDER[d])
    {
      var needing := Needing(tArea, 0);
      ghost var t, pos;
      found, t := PickOne(AREA_ORDER[area], DIFF_ORDER[d]);
      at := area;
      if !found {
        forall i | 0 <= i < |needing| ensures needing[i] < |AREA_ORDER| {
          assert needing[i] in needing;
        }
        found, at, pos := TryAreas(needing, d);
        if !found {
          NoneFound(pool, usedIds, tArea, DIFF_ORDER[d]);
        } else {
          assert at in needing;
        }
      }
    }

    /** One round of the loop over a difficulty, on the targets `tDiff` and
        `tArea`: draw one of the areas still wanted, pick a question of that
        area (or, failing that, of any wanted area, the one it came from
        being `at`) and lower the difficulty target and the target of the
        DRAWN area. `stop` says that no pick succeeded, which ends the loop.
        The source also ends the loop when no area is wanted; that is a
        precondition here, since by `AreaWanted` it never happens while the
        difficulty target is positive. */
    method FillOne(d: nat, tDiff: seq<int>, tArea: seq<int>) returns (stop: bool, nextDiff: seq<int>, nextArea: seq<int>, area: nat, ghost at: nat)
      requires IsRandomStream(random) && QuotaValid()
      requires d < |tDiff| && Needing(tArea, 0) != [] && d < |DIFF_ORDER| && |tArea| == |AREA_ORDER|
      modifies this`byBucket, this`usedIds, this`picked, this`targetMC, this`targetTF, this`draws
      ensures QuotaValid() && draws == old(draws) + 1
      ensures nextDiff == if stop then tDiff else tDiff[d := tDiff[d] - 1]
      ensures area == DrawnArea(tArea, random(old(draws)))
      ensures nextArea == if stop then tArea else tArea[area := tArea[area] - 1]
      ensures stop ==> picked == old(picked) && usedIds == old(usedIds)
      ensures stop ==> Exhausted(pool, usedIds, tArea, DIFF_ORDER[d])
      ensures !stop ==> at < |AREA_ORDER| && TookOne(pool, old(usedIds), old(picked), usedIds, picked, AREA_ORDER[at], DIFF_ORDER[d])
      ensures !stop ==> at == area || at in Needing(tArea, 0)
    {
      area := DrawnArea(tArea, random(draws));
      var found;
      found, at := PickInArea(tArea, area, d);
      draws := draws + 1;
      stop := !found;
      nextDiff := if stop then tDiff else tDiff[d := tDiff[d] - 1];
      nextArea := if stop then tArea else tArea[area := tArea[area] - 1];
    }

    /** One round of the loop of `FillTier`, with the loop invariant relating
        the current targets `curDiff` and `curArea` to the tier's starting
        targets `tDiff` and `tArea`. */
    method FillStep(d: nat, tDiff: seq<int>, tArea: seq<int>, curDiff: seq<int>, curArea: seq<int>)
      returns (stop: bool, nextDiff: seq<int>, nextArea: seq<int>)
      requires IsRandomStream(random) && QuotaValid() && CountsValid(picked, curDiff, curArea) && d < |DIFF_ORDER|
      requires curDiff[d] > 0 && Same(curDiff, tDiff, d) && Below(curArea, tArea)
      modifies this`byBucket, this`usedIds, this`picked, this`targetMC, this`targetTF, this`draws
      ensures QuotaValid() && CountsValid(picked, nextDiff, nextArea)
      ensures Same(nextDiff, tDiff, d) && Below(nextArea, tArea)
      ensures old(usedIds) <= usedIds && draws >= old(draws)
      ensures stop ==> nextDiff == curDiff && Exhausted(pool, usedIds, nextArea, DIFF_ORDER[d])
      ensures !stop ==> nextDiff[d] < curDiff[d]
    {
      ghost var used0, picked0 := usedIds, picked;
      AreaWanted(curArea, curDiff, d);
      var area;
      ghost var at;
      stop, nextDiff, nextArea, area, at := FillOne(d, curDiff, curArea);
      if !stop {
        CountsStep(pool, used0, picked0, usedIds, picked, curDiff, curArea, d, at, area, nextDiff, nextArea);
        TablesStep(tDiff, tArea, curDiff, curArea, d, area, nextDiff, nextArea);
      }
    }

    /** The rounds for the tier `d`, repeated while its target is positive: it
        ends with the tier's target met or the tier out of stock in every
        area still wanted. */
    method FillTier(d: nat, tDiff: seq<int>, tArea: seq<int>) returns (nextDiff: seq<int>, nextArea: seq<int>)
      requires IsRandomStream(random) && QuotaValid() && CountsValid(picked, tDiff, tArea) && d < |DIFF_ORDER|
      modifies this`byBucket, this`usedIds, this`picked, this`targetMC, this`targetTF, this`draws
      ensures QuotaValid() && CountsValid(picked, nextDiff, nextArea)
      ensures nextDiff[d] == 0 || Exhausted(pool, usedIds, nextArea, DIFF_ORDER[d])
      ensures Same(nextDiff, tDiff, d) && Below(nextArea, tArea)
      ensures old(usedIds) <= usedIds && draws >= old(draws)
    {
      nextDiff, nextArea := tDiff, tArea;
      while nextDiff[d] > 0
        invariant QuotaValid() && CountsValid(picked, nextDiff, nextArea)
        invariant Same(nextDiff, tDiff, d) && Below(nextArea, tArea)
        invariant old(usedIds) <= usedIds && draws >= old(draws)
        decreases nextDiff[d]
      {
        var stop;
        stop, nextDiff, nextArea := FillStep(d, tDiff, tArea, nextDiff, nextArea);
        if stop {
          return;
        }
      }
    }

    /** The tiers filled in the order of `DIFF_ORDER`, from the quota tables `DIFF_QUOTA` and `AREA_QUOTA`, returning the
        targets left over. When it ends, every difficulty either met its
        target or ran out of stock in every area still wanted. */
    method FillQuotas() returns (tDiff: seq<int>, tArea: seq<int>)
      requires IsRandomStream(random) && QuotaValid() && picked == []
      modifies this`byBucket, this`usedIds, this`picked, this`targetMC, this`targetTF, this`draws
      ensures QuotaValid() && CountsValid(picked, tDiff, tArea)
      ensures forall d :: 0 <= d < |DIFF_ORDER| ==> tDiff[d] == 0 || Exhausted(pool, usedIds, tArea, DIFF_ORDER[d])
      ensures draws >= old(draws)
    {
      tDiff, tArea := DIFF_QUOTA, AREA_QUOTA;
      InitialCounts();
      var d := 0;
      while d < |DIFF_ORDER|
        invariant 0 <= d <= |DIFF_ORDER| && QuotaValid() && CountsValid(picked, tDiff, tArea) && draws >= old(draws)
        invariant forall e :: 0 <= e < d ==> tDiff[e] == 0 || Exhausted(pool, usedIds, tArea, DIFF_ORDER[e])
      {
        ghost var used0, tArea0 := usedIds, tArea;
        tDiff, tArea := FillTier(d, tDiff, tArea);
        forall e | 0 <= e < d && tDiff[e] != 0
          ensures Exhausted(pool, usedIds, tArea, DIFF_ORDER[e])
        {
          ExhaustedMono(pool, used0, usedIds, tArea0, tArea, DIFF_ORDER[e]);
        }
        d := d + 1;
      }
    }

    /** The backfill: when fewer than `QUIZ_SIZE` questions were picked, the
        unused pool entries are shuffled and copies of them, taken from the
        end, are appended while the quiz is short and entries remain.
        `usedIds` is left as it was. */
    method Backfill()
      requires IsRandomStream(random)
      modifies this`picked, this`draws
      ensures picked == Backfilled(pool, usedIds, old(picked), random, old(draws))
      ensures draws == old(draws) + BackfillDraws(pool, usedIds, old(picked))
    {
      if |picked| < QUIZ_SIZE {
        var remaining := Unused(pool, usedIds);
        var arr := new Question[|remaining|](j requires 0 <= j < |remaining| => remaining[j]);
        assert arr[..] == remaining;
        draws := ShuffleInPlace(arr, random, draws);
        picked := PopInto(picked, arr[..]);
      }
    }

    /** `shuffleInPlace(picked)`. */
    method ShufflePicked()
      requires IsRandomStream(random)
      modifies this`picked, this`draws
      ensures picked == Shuffled(old(picked), random, old(draws))
      ensures draws == old(draws) + Draws(|old(picked)|)
    {
      var p := picked;
      var arr := new Question[|p|](j requires 0 <= j < |p| => p[j]);
      assert arr[..] == p;
      draws := ShuffleInPlace(arr, random, draws);
      picked := arr[..];
    }

    /** The quota phase of `buildQuizSet` on a fresh sampler: buckets built
        and shuffled, then the difficulty loop. */
    method QuotaPhase() returns (ghost tDiff: seq<int>, ghost tArea: seq<int>)
      requires IsRandomStream(random)
      requires byBucket == map[] && bucketOrder == [] && usedIds == {} && picked == []
      modifies this`byBucket, this`bucketOrder, this`usedIds, this`picked, this`targetMC, this`targetTF, this`draws
      ensures PickedValid(pool, usedIds, picked) && |picked| <= QUIZ_SIZE
      ensures CountsValid(picked, tDiff, tArea)
      ensures forall d :: 0 <= d < |DIFF_ORDER| ==>
        CountDiff(picked, DIFF_ORDER[d]) == DIFF_QUOTA[d] || Exhausted(pool, usedIds, tArea, DIFF_ORDER[d])
      ensures draws >= old(draws)
    {
      FillBuckets();
      ShuffleBuckets();
      tDiff, tArea := FillQuotas();
    }

    /** The rest of `buildQuizSet`: the backfill and the final shuffle. */
    method CompletePhase()
      requires IsRandomStream(random)
      requires PickedValid(pool, usedIds, picked) && |picked| <= QUIZ_SIZE
      modifies this`picked, this`draws
      ensures |picked| <= QUIZ_SIZE && draws >= old(draws)
      ensures forall q :: q in picked ==> FromPool(q, pool)
      ensures DistinctIds(pool) ==> DistinctIds(picked) && |picked| == Min(QUIZ_SIZE, |pool|)
      ensures forall diff :: CountDiff(picked, diff) >= CountDiff(old(picked), diff)
    {
      BackfillFacts(pool, usedIds, picked, random, draws);
      ghost var quota, k0 := picked, draws;
      Backfill();
      ghost var full, k := picked, draws;
      ShufflePicked();
      ShuffledFacts(full, random, k);
      ShuffledPermutes(full, random, k);
      forall diff ensures CountDiff(picked, diff) >= CountDiff(quota, diff) {
        BackfillKeepsCounts(pool, usedIds, quota, random, k0, diff);
        CountDiffPermutation(picked, full, diff);
      }
    }
  }

  /** A copy made by `structuredCloneQuestion` carries no elapsed time and
      is not answered. */
  lemma CloneIsFresh(q: Question, pool: seq<Question>)
    requires FromPool(q, pool)
    ensures q.elapsedCarryMs == 0.0 && !q.answered
  {
    var p :| p in pool && q == Clone(p);
  }

  /** A copy of a pool entry has the id of a loaded question. */
  lemma FromPoolHasLoadedId(q: Question, all: seq<Question>)
    requires FromPool(q, Pool(all))
    ensures q.id in Ids(all)
  {
    var pool := Pool(all);
    var p :| p in pool && q == Clone(p);
    var i :| 0 <= i < |pool| && pool[i] == p;
    assert all[i].id == q.id;
  }

  /** A tier the quota phase left short has some area still wanted in
      which no unused entry of that difficulty is left. */
  lemma ShortTierOutOfStock(pool: seq<Question>, used: set<string>, quota: seq<Question>,
                            tDiff: seq<int>, tArea: seq<int>, d: nat)
    requires CountsValid(quota, tDiff, tArea) && d < |DIFF_ORDER|
    requires CountDiff(quota, DIFF_ORDER[d]) == DIFF_QUOTA[d] || Exhausted(pool, used, tArea, DIFF_ORDER[d])
    requires CountDiff(quota, DIFF_ORDER[d]) < DIFF_QUOTA[d]
    ensures exists a :: 0 <= a < |AREA_ORDER| && tArea[a] > 0 && NoStock(pool, used, AREA_ORDER[a], DIFF_ORDER[d])
  {
    AreaWanted(tArea, tDiff, d);
    var a := Needing(tArea, 0)[0];
    assert a in Needing(tArea, 0);
  }

  /** `buildQuizSet(all)`, with `maxRawPoints` as the second result and the
      position in `random` after the last draw as the third: at most
      `QUIZ_SIZE` fresh copies of pool entries and the score of a perfect
      run over them. With no repeated id among `all`, no id is repeated in
      the quiz and it holds `QUIZ_SIZE` questions or all of them. The ghost
      results are the quota phase's picks, the ids it used and the area
      targets it left: each difficulty holds at least its quota-phase
      count, which is its quota unless the phase ran out of unused entries
      of that difficulty in every area still wanted. */
  method BuildQuizSet(all: seq<Question>, random: nat -> real, draws0: nat)
    returns (quiz: seq<Question>, maxRaw: real, draws: nat,
             ghost quota: seq<Question>, ghost used: set<string>, ghost tDiff: seq<int>, ghost tArea: seq<int>)
    requires IsRandomStream(random)
    ensures |quiz| <= QUIZ_SIZE && draws >= draws0
    ensures forall q :: q in quiz ==> FromPool(q, Pool(all)) && q.elapsedCarryMs == 0.0 && !q.answered
    ensures DistinctIds(all) ==> DistinctIds(quiz) && |quiz| == Min(QUIZ_SIZE, |all|)
    ensures maxRaw == Scoring.MaxRaw(quiz)
    ensures PickedValid(Pool(all), used, quota) && CountsValid(quota, tDiff, tArea)
    ensures forall d :: 0 <= d < |DIFF_ORDER| ==>
      && CountDiff(quiz, DIFF_ORDER[d]) >= CountDiff(quota, DIFF_ORDER[d])
      && (CountDiff(quota, DIFF_ORDER[d]) == DIFF_QUOTA[d] || Exhausted(Pool(all), used, tArea, DIFF_ORDER[d]))
  {
    var s := new QuizSampler(all, random, draws0);
    tDiff, tArea := s.QuotaPhase();
    quota, used := s.picked, s.usedIds;
    s.CompletePhase();
    var picked := s.picked;
    maxRaw := Scoring.ComputeMaxRaw(picked);
    quiz := picked[..Min(QUIZ_SIZE, |picked|)];
    assert quiz == picked;
    draws := s.draws;
    forall q | q in quiz ensures q.elapsedCarryMs == 0.0 && !q.answered {
      CloneIsFresh(q, s.pool);
    }
    if DistinctIds(all) {
      assert DistinctIds(s.pool);
    }
  }
}
