// The word-count job: map and reduce of hw-map-reduce-rs/src/app/wc.rs as run by the worker of
// hw-map-reduce-rs/src/worker/mod.rs, and the sequential count they must agree with.
module WordCount {
  import opened Common
  import opened Codec

  datatype KeyValue = KeyValue(key: Bytes, value: Bytes)

  // What the job takes from the standard library: UTF-8 decoding, which characters are letters, and the
  // lower-case UTF-8 form of a word.
  datatype Text = Text(decode: Bytes -> Option<string>, alphabetic: char -> bool, key: string -> Bytes)

  // ---- Words of a text ----

  // str::split() at the characters that are not letters; the current piece began at `from`.
  function Split(alphabetic: char -> bool, s: string, from: nat, i: nat): seq<string>
    requires from <= i <= |s|
    decreases |s| - i
  {
    if i == |s| then [s[from..]]
    else if !alphabetic(s[i]) then [s[from..i]] + Split(alphabetic, s, i + 1, i + 1)
    else Split(alphabetic, s, from, i + 1)
  }

  function NonEmpty(pieces: seq<string>): seq<string> {
    if pieces == [] then []
    else if pieces[0] == "" then NonEmpty(pieces[1..])
    else [pieces[0]] + NonEmpty(pieces[1..])
  }

  function Words(alphabetic: char -> bool, s: string): seq<string> {
    NonEmpty(Split(alphabetic, s, 0, 0))
  }

  // The first place from i on that is not a letter.
  function WordEnd(alphabetic: char -> bool, s: string, i: nat): (e: nat)
    requires i <= |s|
    ensures i <= e <= |s| && (e < |s| ==> !alphabetic(s[e]))
    ensures forall k | i <= k < e :: alphabetic(s[k])
    decreases |s| - i
  {
    if i == |s| || !alphabetic(s[i]) then i else WordEnd(alphabetic, s, i + 1)
  }

  // The maximal runs of letters, from place i on.
  function LetterRuns(alphabetic: char -> bool, s: string, i: nat): seq<string>
    requires i <= |s|
    decreases |s| - i
  {
    if i == |s| then []
    else if !alphabetic(s[i]) then LetterRuns(alphabetic, s, i + 1)
    else
      var e := WordEnd(alphabetic, s, i);
      [s[i..e]] + LetterRuns(alphabetic, s, e)
  }

  lemma {:induction false} SplitRuns(alphabetic: char -> bool, s: string, from: nat, i: nat)
    requires from <= i <= |s| && forall k | from <= k < i :: alphabetic(s[k])
    ensures NonEmpty(Split(alphabetic, s, from, i)) == if from == i then LetterRuns(alphabetic, s, i)
              else [s[from..WordEnd(alphabetic, s, i)]] + LetterRuns(alphabetic, s, WordEnd(alphabetic, s, i))
    decreases |s| - i
  {
    hide NonEmpty;
    if i == |s| {
      NonEmptyFirst(s[from..], []);
      assert [s[from..]] == [s[from..]] + [] && s[from..] == s[from..i];
    } else if alphabetic(s[i]) {
      SplitRuns(alphabetic, s, from, i + 1);
    } else {
      SplitRuns(alphabetic, s, i + 1, i + 1);
      NonEmptyFirst(s[from..i], Split(alphabetic, s, i + 1, i + 1));
    }
  }

  lemma NonEmptyFirst(p: string, rest: seq<string>)
    ensures NonEmpty([p] + rest) == if p == "" then NonEmpty(rest) else [p] + NonEmpty(rest)
    ensures NonEmpty([]) == []
  {
    assert ([p] + rest)[1..] == rest;
  }

  // The words are the maximal runs of letters, in order.
  lemma WordsAreLetterRuns(alphabetic: char -> bool, s: string)
    ensures Words(alphabetic, s) == LetterRuns(alphabetic, s, 0)
  {
    SplitRuns(alphabetic, s, 0, 0);
  }

  // The keys that the map function emits for a file; None if the file is not UTF-8.
  function Keys(t: Text, content: Bytes): Option<seq<Bytes>> {
    var s := t.decode(content);
    if s.None? then None
    else
      var words := Words(t.alphabetic, s.value);
      Some(seq(|words|, i requires 0 <= i < |words| => t.key(words[i])))
  }

  // The words of a file, without the functions that the worker uses: the keys of the maximal runs of letters of its
  // text, in order.
  ghost predicate WordsOf(t: Text, content: Bytes, words: seq<Bytes>) {
    t.decode(content).Some? &&
    var runs := LetterRuns(t.alphabetic, t.decode(content).value, 0);
    |words| == |runs| && forall i | 0 <= i < |runs| :: words[i] == t.key(runs[i])
  }

  // The map function emits exactly the words of the file, and fails exactly if it is not UTF-8.
  lemma KeysAreWords(t: Text, content: Bytes)
    ensures Keys(t, content).Some? <==> t.decode(content).Some?
    ensures Keys(t, content).Some? ==> WordsOf(t, content, Keys(t, content).value)
  {
    var s := t.decode(content);
    if s.Some? {
      WordsAreLetterRuns(t.alphabetic, s.value);
    }
  }

  lemma WordsOnce(t: Text, content: Bytes, words: seq<Bytes>)
    requires WordsOf(t, content, words)
    ensures Keys(t, content) == Some(words)
  {
    KeysAreWords(t, content);
    hide Keys;
    assert Keys(t, content).value == words;
  }

  // ---- The sequential answer ----

  function CountIn(keys: seq<Bytes>, k: Bytes): nat {
    if keys == [] then 0 else CountIn(keys[..|keys| - 1], k) + if keys[|keys| - 1] == k then 1 else 0
  }

  // How often k occurs in all files together.
  function Count(files: seq<seq<Bytes>>, k: Bytes): nat {
    if files == [] then 0 else Count(files[..|files| - 1], k) + CountIn(files[|files| - 1], k)
  }

  // ---- Map ----

  function One(): Bytes { PutU64(1) }

  // The packets a map task sends to the writer of reduce task r.
  function Packets(hash: Bytes -> nat, n: nat, keys: seq<Bytes>, r: nat): seq<Bytes>
    requires n > 0
  {
    if keys == [] then []
    else
      var last := keys[|keys| - 1];
      Packets(hash, n, keys[..|keys| - 1], r) + if hash(last) % n == r then [last, One()] else []
  }

  ghost predicate KeysSendable(keys: seq<Bytes>) {
    forall i | 0 <= i < |keys| :: Sendable(keys[i])
  }

  lemma {:induction false} PacketsSendable(hash: Bytes -> nat, n: nat, keys: seq<Bytes>, r: nat)
    requires n > 0 && KeysSendable(keys)
    ensures AllSendable(Packets(hash, n, keys, r))
  {
    if keys != [] {
      PacketsSendable(hash, n, keys[..|keys| - 1], r);
    }
  }

  // What a map task stores for reduce task r.
  function Bucket(hash: Bytes -> nat, n: nat, keys: seq<Bytes>, r: nat): Bytes
    requires n > 0 && KeysSendable(keys)
  {
    PacketsSendable(hash, n, keys, r);
    Encode(Packets(hash, n, keys, r))
  }

  // One more word goes to one writer.
  lemma BucketGrows(hash: Bytes -> nat, n: nat, keys: seq<Bytes>, k: nat, r: nat)
    requires n > 0 && KeysSendable(keys) && k < |keys|
    ensures Bucket(hash, n, keys[..k + 1], r)
         == if hash(keys[k]) % n == r then Appended(Appended(Bucket(hash, n, keys[..k], r), keys[k]), One())
            else Bucket(hash, n, keys[..k], r)
  {
    hide Encode, Appended, PutU64;
    var before := Packets(hash, n, keys[..k], r);
    PacketsSendable(hash, n, keys[..k], r);
    assert keys[..k + 1][..k] == keys[..k];
    if hash(keys[k]) % n == r {
      EncodeAppended(before, keys[k]);
      EncodeAppended(before + [keys[k]], One());
      assert before + [keys[k]] + [One()] == before + [keys[k], One()];
    } else {
      assert before + [] == before;
    }
  }

  // ---- Reduce ----

  // The key-value pairs of a sequence of packets; None if a key has no value.
  function Pairs(packets: seq<Bytes>): Option<seq<KeyValue>> {
    if packets == [] then Some([])
    else if |packets| == 1 then None
    else
      var more := Pairs(packets[2..]);
      if more.None? then None else Some([KeyValue(packets[0], packets[1])] + more.value)
  }

  // The pairs of one map task for reduce task r.
  function Emitted(hash: Bytes -> nat, n: nat, keys: seq<Bytes>, r: nat): seq<KeyValue>
    requires n > 0
  {
    if keys == [] then []
    else
      var last := keys[|keys| - 1];
      Emitted(hash, n, keys[..|keys| - 1], r) + if hash(last) % n == r then [KeyValue(last, One())] else []
  }

  lemma {:induction false} PairsAppend(packets: seq<Bytes>, k: Bytes, v: Bytes)
    requires Pairs(packets).Some?
    ensures Pairs(packets + [k, v]) == Some(Pairs(packets).value + [KeyValue(k, v)])
  {
    if packets == [] {
      var kv := KeyValue(k, v);
      assert packets + [k, v] == [k, v] && [k, v][2..] == [] && Pairs([]) == Some([]);
      assert Pairs([k, v]) == Some([kv] + []);
      assert [kv] + [] == [kv] == [] + [kv];
    } else {
      PairsAppend(packets[2..], k, v);
      assert (packets + [k, v])[2..] == packets[2..] + [k, v];
      var first, more := KeyValue(packets[0], packets[1]), Pairs(packets[2..]).value;
      assert [first] + (more + [KeyValue(k, v)]) == [first] + more + [KeyValue(k, v)];
    }
  }

  lemma {:induction false} PairsOfPackets(hash: Bytes -> nat, n: nat, keys: seq<Bytes>, r: nat)
    requires n > 0
    ensures Pairs(Packets(hash, n, keys, r)) == Some(Emitted(hash, n, keys, r))
  {
    hide PutU64;
    if keys != [] {
      PairsOfPackets(hash, n, keys[..|keys| - 1], r);
      var last := keys[|keys| - 1];
      if hash(last) % n == r {
        PairsAppend(Packets(hash, n, keys[..|keys| - 1], r), last, One());
      } else {
        assert Packets(hash, n, keys, r) == Packets(hash, n, keys[..|keys| - 1], r);
        assert Emitted(hash, n, keys, r) == Emitted(hash, n, keys[..|keys| - 1], r);
      }
    }
  }

  // Reading back a bucket gives the pairs that were emitted for it.
  lemma BucketReads(hash: Bytes -> nat, n: nat, keys: seq<Bytes>, r: nat)
    requires n > 0 && KeysSendable(keys)
    ensures var d := Decode(Bucket(hash, n, keys, r));
            d.Some? && Pairs(d.value) == Some(Emitted(hash, n, keys, r))
  {
    PacketsSendable(hash, n, keys, r);
    DecodeEncode(Packets(hash, n, keys, r));
    PairsOfPackets(hash, n, keys, r);
  }

  // Lexicographic order, by which Bytes compare.
  predicate Le(a: Bytes, b: Bytes) {
    a == [] || (b != [] && (a[0] < b[0] || (a[0] == b[0] && Le(a[1..], b[1..]))))
  }

  // a comes first: up to place k they agree, and there a ends or has the smaller byte.
  ghost predicate FirstAt(a: Bytes, b: Bytes, k: nat) {
    && k <= |a| && k <= |b| && (forall i | 0 <= i < k :: a[i] == b[i])
    && (k == |a| || (k < |b| && a[k] < b[k]))
  }

  lemma {:induction false} LeMeans(a: Bytes, b: Bytes)
    ensures Le(a, b) <==> exists k :: FirstAt(a, b, k)
  {
    if a == [] {
      assert FirstAt(a, b, 0);
    } else if b != [] && a[0] == b[0] {
      LeMeans(a[1..], b[1..]);
      if k: nat :| FirstAt(a[1..], b[1..], k) {
        forall i | 0 <= i < k + 1 ensures a[i] == b[i] {
          assert i > 0 ==> a[1..][i - 1] == b[1..][i - 1];
        }
        assert FirstAt(a, b, k + 1);
      }
      if k: nat :| FirstAt(a, b, k) {
        assert k > 0;
        assert forall i | 0 <= i < k - 1 :: a[1..][i] == a[i + 1] && b[1..][i] == b[i + 1];
        assert FirstAt(a[1..], b[1..], k - 1);
      }
    } else if b != [] && a[0] < b[0] {
      assert FirstAt(a, b, 0);
    }
  }

  lemma {:induction false} LeAntisymmetric(a: Bytes, b: Bytes)
    requires Le(a, b) && Le(b, a)
    ensures a == b
  {
    if a != [] {
      LeAntisymmetric(a[1..], b[1..]);
      assert a == [a[0]] + a[1..] && b == [b[0]] + b[1..];
    }
  }

  ghost predicate SortedByKey(s: seq<KeyValue>) {
    forall i, j | 0 <= i < j < |s| :: Le(s[i].key, s[j].key)
  }

  // What sort_unstable_by_key() promises.
  ghost predicate SortOf(s: seq<KeyValue>, sorted: seq<KeyValue>) {
    multiset(s) == multiset(sorted) && SortedByKey(sorted)
  }

  function Weight(kv: KeyValue): nat {
    if |kv.value| >= 8 then GetU64(kv.value) else 0
  }

  // The sum of the values with key k from place i on.
  function Total(s: seq<KeyValue>, k: Bytes, i: nat): nat
    requires i <= |s|
    decreases |s| - i
  {
    if i == |s| then 0 else (if s[i].key == k then Weight(s[i]) else 0) + Total(s, k, i + 1)
  }

  // wc::reduce() on the values of places i to e: None where get_u64() or the sum would overrun.
  function Sum(s: seq<KeyValue>, i: nat, e: nat): Option<nat>
    requires i <= e <= |s|
  {
    if i == e then Some(0)
    else
      var before := Sum(s, i, e - 1);
      if before.None? || |s[e - 1].value| < 8 || before.value + GetU64(s[e - 1].value) >= 0x1_0000_0000_0000_0000 then None
      else Some(before.value + GetU64(s[e - 1].value))
  }

  // The counts of places i to e, added up without a bound.
  function Weights(s: seq<KeyValue>, i: nat, e: nat): nat
    requires i <= e <= |s|
    decreases e - i
  {
    if i == e then 0 else Weight(s[i]) + Weights(s, i + 1, e)
  }

  lemma {:induction false} WeightsLast(s: seq<KeyValue>, i: nat, e: nat)
    requires i < e <= |s|
    ensures Weights(s, i, e) == Weights(s, i, e - 1) + Weight(s[e - 1])
    decreases e - i
  {
    if i < e - 1 { WeightsLast(s, i + 1, e); }
  }

  // The sum fails exactly where a value is no count or the counts together overrun 64 bits.
  lemma {:induction false} SumMeans(s: seq<KeyValue>, i: nat, e: nat)
    requires i <= e <= |s|
    ensures Sum(s, i, e) ==
            if (forall j | i <= j < e :: |s[j].value| >= 8) && Weights(s, i, e) < 0x1_0000_0000_0000_0000
            then Some(Weights(s, i, e)) else None
    decreases e - i
  {
    hide GetU64;
    if i < e {
      SumMeans(s, i, e - 1);
      WeightsLast(s, i, e);
    }
  }

  // group_by(): the end of the group that begins at i.
  function GroupEnd(s: seq<KeyValue>, k: Bytes, i: nat): (e: nat)
    requires i <= |s|
    ensures i <= e <= |s| && (e < |s| ==> s[e].key != k)
    ensures forall j | i <= j < e :: s[j].key == k
    decreases |s| - i
  {
    if i == |s| || s[i].key != k then i else GroupEnd(s, k, i + 1)
  }

  // The reduced groups from place i on, or None if some group fails.
  function Reduced(s: seq<KeyValue>, i: nat): Option<seq<KeyValue>>
    requires i <= |s|
    decreases |s| - i
  {
    if i == |s| then Some([])
    else
      var e := GroupEnd(s, s[i].key, i + 1);
      var sum, more := Sum(s, i, e), Reduced(s, e);
      if sum.None? || sum.value >= 0x1_0000_0000_0000_0000 || more.None? then None
      else Some([KeyValue(s[i].key, PutU64(sum.value))] + more.value)
  }

  // Every value is a count, and no key's counts overrun 64 bits.
  ghost predicate Summable(s: seq<KeyValue>) {
    && (forall i | 0 <= i < |s| :: |s[i].value| >= 8)
    && (forall k: Bytes :: Total(s, k, 0) < 0x1_0000_0000_0000_0000)
  }

  lemma {:induction false} TotalShrinks(s: seq<KeyValue>, k: Bytes, i: nat)
    requires i <= |s|
    ensures Total(s, k, i) <= Total(s, k, 0)
  {
    if i > 0 { TotalShrinks(s, k, i - 1); }
  }

  // The sum of a group is the total of its key, when the key does not come back.
  lemma {:induction false} SumIsTotal(s: seq<KeyValue>, k: Bytes, i: nat, e: nat)
    requires i <= e <= |s| && Summable(s)
    requires forall j | i <= j < e :: s[j].key == k
    ensures Sum(s, i, e).Some? && Sum(s, i, e).value + Total(s, k, e) == Total(s, k, i)
    decreases e - i
  {
    hide GetU64, Weight;
    if i < e {
      SumIsTotal(s, k, i, e - 1);
      TotalShrinks(s, k, i);
      WeightIs(s[e - 1]);
    }
  }

  lemma WeightIs(kv: KeyValue)
    requires |kv.value| >= 8
    ensures Weight(kv) == GetU64(kv.value)
  {}

  lemma {:induction false} TotalAbsent(s: seq<KeyValue>, k: Bytes, i: nat)
    requires i <= |s| && forall j | i <= j < |s| :: s[j].key != k
    ensures Total(s, k, i) == 0
    decreases |s| - i
  {
    if i < |s| { TotalAbsent(s, k, i + 1); }
  }

  lemma {:induction false} TotalSkips(s: seq<KeyValue>, k: Bytes, i: nat, e: nat)
    requires i <= e <= |s| && forall j | i <= j < e :: s[j].key != k
    ensures Total(s, k, i) == Total(s, k, e)
    decreases e - i
  {
    if i < e { TotalSkips(s, k, i + 1, e); }
  }

  // In a sorted sequence a key does not come back after its group.
  lemma GroupIsAll(s: seq<KeyValue>, i: nat, j: nat)
    requires SortedByKey(s) && i < |s| && GroupEnd(s, s[i].key, i + 1) <= j < |s|
    ensures s[j].key != s[i].key
  {
    hide GroupEnd;
    var e := GroupEnd(s, s[i].key, i + 1);
    if s[j].key == s[i].key && e < j {
      assert Le(s[i].key, s[e].key) && Le(s[e].key, s[j].key);
      LeAntisymmetric(s[i].key, s[e].key);
    }
  }

  ghost predicate HasKey(s: seq<KeyValue>, k: Bytes) {
    exists j :: 0 <= j < |s| && s[j].key == k
  }

  ghost predicate HasKeyFrom(s: seq<KeyValue>, k: Bytes, i: nat) {
    exists j :: i <= j < |s| && s[j].key == k
  }

  ghost predicate DistinctKeys(s: seq<KeyValue>) {
    forall i, j | 0 <= i < j < |s| :: s[i].key != s[j].key
  }

  // One output per key, holding the key's total.
  ghost predicate Totals(s: seq<KeyValue>, i: nat, out: seq<KeyValue>)
    requires i <= |s|
  {
    && DistinctKeys(out) && SortedByKey(out)
    && (forall k :: HasKey(out, k) <==> HasKeyFrom(s, k, i))
    && (forall j | 0 <= j < |out| :: |out[j].value| == 8 && GetU64(out[j].value) == Total(s, out[j].key, i))
  }

  lemma {:induction false} ReducedTotals(s: seq<KeyValue>, i: nat)
    requires i <= |s| && SortedByKey(s) && Summable(s)
    ensures Reduced(s, i).Some? && Totals(s, i, Reduced(s, i).value)
    decreases |s| - i
  {
    hide SortedByKey, Summable, Sum, Total, PutU64, GetU64, GroupEnd, Totals;
    if i == |s| {
      NoTotals(s);
    } else {
      var k := s[i].key;
      var e := GroupEnd(s, k, i + 1);
      ReducedTotals(s, e);
      SumIsTotal(s, k, i, e);
      forall j | e <= j < |s| ensures s[j].key != k { GroupIsAll(s, i, j); }
      TotalAbsent(s, k, e);
      TotalSmall(s, k, i);
      TotalsMore(s, i, e, Reduced(s, e).value, Sum(s, i, e).value);
    }
  }

  lemma TotalSmall(s: seq<KeyValue>, k: Bytes, i: nat)
    requires i <= |s| && Summable(s)
    ensures Total(s, k, i) < 0x1_0000_0000_0000_0000
  {
    TotalShrinks(s, k, i);
  }

  lemma NoTotals(s: seq<KeyValue>)
    ensures Totals(s, |s|, [])
  {}

  // One more group in front.
  lemma TotalsMore(s: seq<KeyValue>, i: nat, e: nat, out: seq<KeyValue>, sum: nat)
    requires i < e <= |s| && SortedByKey(s) && Totals(s, e, out) && sum == Total(s, s[i].key, i) < 0x1_0000_0000_0000_0000
    requires forall j | i <= j < e :: s[j].key == s[i].key
    requires forall j | e <= j < |s| :: s[j].key != s[i].key
    ensures Totals(s, i, [KeyValue(s[i].key, PutU64(sum))] + out)
  {
    hide PutU64, GetU64, Total, Le;
    var k := s[i].key;
    var r := [KeyValue(k, PutU64(sum))] + out;
    assert !HasKey(out, k);
    GetPutU64(sum);
    forall c ensures HasKey(r, c) <==> HasKeyFrom(s, c, i) {
      HasKeyMore(r, out, c);
      assert HasKeyFrom(s, k, i);
      if c != k && HasKeyFrom(s, c, i) {
        var j :| i <= j < |s| && s[j].key == c;
        assert HasKeyFrom(s, c, e);
      }
    }
    forall j | 0 <= j < |r| ensures |r[j].value| == 8 && GetU64(r[j].value) == Total(s, r[j].key, i) {
      if j > 0 {
        assert r[j] == out[j - 1] && HasKey(out, r[j].key);
        TotalSkips(s, r[j].key, i, e);
      }
    }
    forall a, b | 0 <= a < b < |r| ensures r[a].key != r[b].key {
      assert r[b] == out[b - 1] && HasKey(out, r[b].key);
      assert a > 0 ==> r[a] == out[a - 1];
    }
    forall a, b | 0 <= a < b < |r| ensures Le(r[a].key, r[b].key) {
      assert r[b] == out[b - 1] && HasKey(out, r[b].key);
      if a == 0 {
        var j :| e <= j < |s| && s[j].key == r[b].key;
        assert Le(s[i].key, s[j].key);
      } else {
        assert r[a] == out[a - 1];
      }
    }
  }

  lemma HasKeyMore(r: seq<KeyValue>, out: seq<KeyValue>, c: Bytes)
    requires r != [] && r[1..] == out
    ensures HasKey(r, c) <==> HasKey(out, c) || r[0].key == c
  {
    if HasKey(out, c) {
      var j :| 0 <= j < |out| && out[j].key == c;
      assert r[j + 1].key == c;
    }
    if HasKey(r, c) && r[0].key != c {
      var j :| 0 <= j < |r| && r[j].key == c;
      assert out[j - 1].key == c;
    }
  }

  // ---- Totals do not depend on the order ----

  function Sub(s: seq<KeyValue>, k: Bytes): nat {
    if s == [] then 0 else Sub(s[..|s| - 1], k) + if s[|s| - 1].key == k then Weight(s[|s| - 1]) else 0
  }

  lemma {:induction false} SubConcat(a: seq<KeyValue>, b: seq<KeyValue>, k: Bytes)
    ensures Sub(a + b, k) == Sub(a, k) + Sub(b, k)
  {
    hide Weight;
    if b == [] {
      assert a + b == a;
    } else {
      SubConcat(a, b[..|b| - 1], k);
      assert (a + b)[..|a + b| - 1] == a + b[..|b| - 1];
    }
  }

  lemma {:induction false} TotalIsSub(s: seq<KeyValue>, k: Bytes, i: nat)
    requires i <= |s|
    ensures Total(s, k, i) == Sub(s[i..], k)
    decreases |s| - i
  {
    hide Weight;
    if i < |s| {
      TotalIsSub(s, k, i + 1);
      SubConcat([s[i]], s[i + 1..], k);
      assert s[i..] == [s[i]] + s[i + 1..];
      assert [s[i]][..0] == [];
    }
  }

  lemma OneOut(a: seq<KeyValue>, x: KeyValue, b: seq<KeyValue>, c: seq<KeyValue>)
    requires multiset(a + [x]) == multiset(b + [x] + c)
    ensures multiset(a) == multiset(b + c)
  {
    assert multiset(a + [x]) == multiset(a) + multiset{x};
    assert multiset(b + [x] + c) == multiset(b + c) + multiset{x};
    assert multiset(a) == multiset(a) + multiset{x} - multiset{x};
    assert multiset(b + c) == multiset(b + c) + multiset{x} - multiset{x};
  }

  lemma {:induction false} SubPermuted(a: seq<KeyValue>, b: seq<KeyValue>, k: Bytes)
    requires multiset(a) == multiset(b)
    ensures Sub(a, k) == Sub(b, k)
    decreases |a|
  {
    hide Weight;
    if a == [] {
      assert |multiset(b)| == 0;
    } else {
      var n := |a| - 1;
      var x := a[n];
      assert x in multiset(b);
      var j :| 0 <= j < |b| && b[j] == x;
      var rest := b[..j] + b[j + 1..];
      assert b == b[..j] + [x] + b[j + 1..];
      assert a == a[..n] + [x];
      OneOut(a[..n], x, b[..j], b[j + 1..]);
      SubPermuted(a[..n], rest, k);
      SubConcat(b[..j] + [x], b[j + 1..], k);
      SubConcat(b[..j], [x], k);
      SubConcat(b[..j], b[j + 1..], k);
      assert [x][..0] == [];
    }
  }

  // ---- The job ----

  // All pairs that reach reduce task r.
  function Gathered(hash: Bytes -> nat, n: nat, files: seq<seq<Bytes>>, r: nat): seq<KeyValue>
    requires n > 0
  {
    if files == [] then []
    else Gathered(hash, n, files[..|files| - 1], r) + Emitted(hash, n, files[|files| - 1], r)
  }

  lemma OneWeighs(k: Bytes)
    ensures |One()| == 8 && GetU64(One()) == 1 && Weight(KeyValue(k, One())) == 1
  {
    GetPutU64(1);
  }

  lemma {:induction false} EmittedCounts(hash: Bytes -> nat, n: nat, keys: seq<Bytes>, r: nat, k: Bytes)
    requires n > 0
    ensures Sub(Emitted(hash, n, keys, r), k) == if hash(k) % n == r then CountIn(keys, k) else 0
    ensures forall i | 0 <= i < |Emitted(hash, n, keys, r)| ::
              Emitted(hash, n, keys, r)[i].value == One() && hash(Emitted(hash, n, keys, r)[i].key) % n == r
  {
    hide Weight, One;
    if keys != [] {
      var m := |keys| - 1;
      EmittedCounts(hash, n, keys[..m], r, k);
      var more := if hash(keys[m]) % n == r then [KeyValue(keys[m], One())] else [];
      SubConcat(Emitted(hash, n, keys[..m], r), more, k);
      OneWeighs(keys[m]);
      assert more != [] ==> more[..0] == [];
    }
  }

  // The pairs that reach reduce task r hold the counts of the words that hash to r, and nothing else.
  lemma {:induction false} GatheredCounts(hash: Bytes -> nat, n: nat, files: seq<seq<Bytes>>, r: nat, k: Bytes)
    requires n > 0
    ensures Sub(Gathered(hash, n, files, r), k) == if hash(k) % n == r then Count(files, k) else 0
    ensures forall i | 0 <= i < |Gathered(hash, n, files, r)| ::
              Gathered(hash, n, files, r)[i].value == One() && hash(Gathered(hash, n, files, r)[i].key) % n == r
  {
    hide Weight, One, Emitted;
    if files != [] {
      var m := |files| - 1;
      GatheredCounts(hash, n, files[..m], r, k);
      EmittedCounts(hash, n, files[m], r, k);
      SubConcat(Gathered(hash, n, files[..m], r), Emitted(hash, n, files[m], r), k);
    }
  }

  lemma {:induction false} SubOfOnes(s: seq<KeyValue>, k: Bytes)
    requires forall i | 0 <= i < |s| :: s[i].value == One()
    ensures Sub(s, k) > 0 <==> HasKey(s, k)
  {
    hide Weight, One;
    if s != [] {
      var m := |s| - 1;
      SubOfOnes(s[..m], k);
      OneWeighs(s[m].key);
      assert s[m] == KeyValue(s[m].key, One());
      if HasKey(s[..m], k) {
        var j :| 0 <= j < m && s[..m][j].key == k;
        assert s[j].key == k;
      }
      if HasKey(s, k) && s[m].key != k {
        var j :| 0 <= j < |s| && s[j].key == k;
        assert s[..m][j].key == k;
      }
    }
  }

  // What the output of reduce task r must be: the words that hash to r and occur, each once and in order, with the
  // number of times they occur in all files.
  ghost predicate Answers(hash: Bytes -> nat, n: nat, files: seq<seq<Bytes>>, r: nat, out: seq<KeyValue>)
    requires n > 0
  {
    && DistinctKeys(out) && SortedByKey(out)
    && (forall k :: HasKey(out, k) <==> hash(k) % n == r && Count(files, k) > 0)
    && (forall j | 0 <= j < |out| :: |out[j].value| == 8 && GetU64(out[j].value) == Count(files, out[j].key))
  }

  ghost predicate CountsFit(files: seq<seq<Bytes>>) {
    forall k :: Count(files, k) < 0x1_0000_0000_0000_0000
  }

  lemma SortedSummable(hash: Bytes -> nat, n: nat, files: seq<seq<Bytes>>, r: nat, sorted: seq<KeyValue>)
    requires n > 0 && CountsFit(files) && SortOf(Gathered(hash, n, files, r), sorted)
    ensures Summable(sorted)
    ensures forall k :: Total(sorted, k, 0) == if hash(k) % n == r then Count(files, k) else 0
    ensures forall i | 0 <= i < |sorted| :: sorted[i].value == One()
  {
    hide One, Total, SortedByKey, Gathered, Sub, Count;
    var s := Gathered(hash, n, files, r);
    forall k ensures Total(sorted, k, 0) == if hash(k) % n == r then Count(files, k) else 0 {
      TotalIsSub(sorted, k, 0);
      assert sorted[0..] == sorted;
      SubPermuted(s, sorted, k);
      GatheredCounts(hash, n, files, r, k);
    }
    forall i | 0 <= i < |sorted| ensures sorted[i].value == One() {
      assert sorted[i] in multiset(s);
      GatheredCounts(hash, n, files, r, []);
    }
    OneWeighs([]);
  }

  // Reduce task r answers for the words that hash to r, however the sort orders equal keys.
  lemma ReduceAnswers(hash: Bytes -> nat, n: nat, files: seq<seq<Bytes>>, r: nat, sorted: seq<KeyValue>)
    requires n > 0 && CountsFit(files) && SortOf(Gathered(hash, n, files, r), sorted)
    ensures Reduced(sorted, 0).Some? && Answers(hash, n, files, r, Reduced(sorted, 0).value)
  {
    hide One, Total, SortedByKey, Gathered, Count, Reduced, Summable, CountsFit, HasKey, HasKeyFrom, GetU64, DistinctKeys;
    SortedSummable(hash, n, files, r, sorted);
    ReducedTotals(sorted, 0);
    var out := Reduced(sorted, 0).value;
    forall k ensures HasKeyFrom(sorted, k, 0) <==> Total(sorted, k, 0) > 0 {
      TotalIsSub(sorted, k, 0);
      assert sorted[0..] == sorted;
      SubOfOnes(sorted, k);
      HasKeyAnywhere(sorted, k);
    }
    forall k ensures HasKey(out, k) <==> hash(k) % n == r && Count(files, k) > 0 {}
    forall j | 0 <= j < |out| ensures GetU64(out[j].value) == Count(files, out[j].key) {
      KeyAt(out, j);
    }
  }

  lemma HasKeyAnywhere(s: seq<KeyValue>, k: Bytes)
    ensures HasKey(s, k) <==> HasKeyFrom(s, k, 0)
  {}

  lemma KeyAt(s: seq<KeyValue>, j: nat)
    requires j < |s|
    ensures HasKey(s, s[j].key)
  {}

  // The sequential count of the files, spread over several outputs: a word that occurs is in exactly one of
  // them, there exactly once, with the number of its occurrences; no other word is in any.
  ghost predicate SequentialCount(files: seq<seq<Bytes>>, outs: seq<seq<KeyValue>>) {
    && (forall k :: Count(files, k) > 0 ==>
          exists r, j :: 0 <= r < |outs| && 0 <= j < |outs[r]| && outs[r][j].key == k
                         && |outs[r][j].value| == 8 && GetU64(outs[r][j].value) == Count(files, k))
    && (forall q, i, r, j | 0 <= q < |outs| && 0 <= i < |outs[q]| && 0 <= r < |outs| && 0 <= j < |outs[r]|
                            && outs[q][i].key == outs[r][j].key :: q == r && i == j)
    && (forall r, j | 0 <= r < |outs| && 0 <= j < |outs[r]| :: Count(files, outs[r][j].key) > 0)
  }

  // Outputs that each answer for their own words together are the sequential count.
  lemma AnswersAreCount(hash: Bytes -> nat, n: nat, files: seq<seq<Bytes>>, outs: seq<seq<KeyValue>>)
    requires n > 0 && |outs| == n && forall r | 0 <= r < n :: Answers(hash, n, files, r, outs[r])
    ensures SequentialCount(files, outs)
  {
    hide Count, GetU64;
    forall k | Count(files, k) > 0
      ensures exists r, j :: 0 <= r < |outs| && 0 <= j < |outs[r]| && outs[r][j].key == k
                             && |outs[r][j].value| == 8 && GetU64(outs[r][j].value) == Count(files, k)
    {
      var r := hash(k) % n;
      assert Answers(hash, n, files, r, outs[r]) && HasKey(outs[r], k);
      var j :| 0 <= j < |outs[r]| && outs[r][j].key == k;
      assert |outs[r][j].value| == 8 && GetU64(outs[r][j].value) == Count(files, outs[r][j].key);
    }
    forall q, i, r, j | 0 <= q < n && 0 <= i < |outs[q]| && 0 <= r < n && 0 <= j < |outs[r]|
                        && outs[q][i].key == outs[r][j].key
      ensures q == r && i == j
    {
      KeyAt(outs[q], i);
      KeyAt(outs[r], j);
      assert Answers(hash, n, files, q, outs[q]) && Answers(hash, n, files, r, outs[r]);
    }
    forall r, j | 0 <= r < n && 0 <= j < |outs[r]| ensures Count(files, outs[r][j].key) > 0 {
      KeyAt(outs[r], j);
      assert Answers(hash, n, files, r, outs[r]);
    }
  }
}
