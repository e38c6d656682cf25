// The worker of hw-map-reduce-rs/src/worker/mod.rs running the word-count application.
module Worker {
  import opened Common
  import opened Codec
  import opened WordCount

  type Entries = map<(nat, nat), Bytes>      // by map task and reduce task

  // The stored buffers with those of one map task put in.
  function Stored(entries: Entries, task: nat, buffers: seq<Bytes>, i: nat): (r: Entries)
    requires i <= |buffers|
    ensures forall m, q :: (m, q) in r <==> (m, q) in entries || (m == task && 0 <= q < i)
    ensures forall m, q | (m, q) in r :: r[(m, q)] == if m == task && 0 <= q < i then buffers[q] else entries[(m, q)]
  {
    if i == 0 then entries else Stored(entries, task, buffers, i - 1)[(task, i - 1) := buffers[i - 1]]
  }

  function Buckets(hash: Bytes -> nat, n: nat, keys: seq<Bytes>): (b: seq<Bytes>)
    requires KeysSendable(keys)
    ensures |b| == n
  {
    seq(n, r requires 0 <= r < n => Bucket(hash, n, keys, r))
  }

  // What a worker holds for the job is what map tasks of these files produce.
  ghost predicate Faithful(entries: Entries, hash: Bytes -> nat, n: nat, files: seq<seq<Bytes>>)
    requires n > 0
  {
    forall m: nat, r: nat | (m, r) in entries :: m < |files| && r < n && KeysSendable(files[m])
                                                && entries[(m, r)] == Bucket(hash, n, files[m], r)
  }

  function EntriesOf(data: map<nat, Entries>, job: nat): Entries {
    if job in data then data[job] else map[]
  }

  // The state after a map task that emitted `keys`.
  function Mapped(data: map<nat, Entries>, job: nat, task: nat, hash: Bytes -> nat, n: nat, keys: seq<Bytes>): map<nat, Entries>
    requires KeysSendable(keys)
  {
    data[job := Stored(EntriesOf(data, job), task, Buckets(hash, n, keys), n)]
  }

  // Running a map task again changes nothing.
  lemma MapAgain(data: map<nat, Entries>, job: nat, task: nat, hash: Bytes -> nat, n: nat, keys: seq<Bytes>)
    requires KeysSendable(keys)
    ensures var once := Mapped(data, job, task, hash, n, keys); Mapped(once, job, task, hash, n, keys) == once
  {
    var b := Buckets(hash, n, keys);
    hide Buckets;
    var one := Stored(EntriesOf(data, job), task, b, n);
    var two := Stored(one, task, b, n);
    hide Stored;
    forall e: (nat, nat) ensures e in one <==> e in two {
      assert e == (e.0, e.1);
      assert (e.0, e.1) in one <==> (e.0, e.1) in two;
    }
    forall e: (nat, nat) | e in one ensures one[e] == two[e] {
      assert (e.0, e.1) in one && (e.0, e.1) in two && e == (e.0, e.1);
    }
    assert one == two;
  }

  // A map task of one of the job's files keeps what is stored faithful, and leaves other jobs alone.
  lemma MapFaithful(data: map<nat, Entries>, job: nat, task: nat, hash: Bytes -> nat, n: nat, files: seq<seq<Bytes>>)
    requires n > 0 && task < |files| && KeysSendable(files[task])
    requires Faithful(EntriesOf(data, job), hash, n, files)
    ensures var d := Mapped(data, job, task, hash, n, files[task]);
            && Faithful(EntriesOf(d, job), hash, n, files)
            && (forall r: nat | r < n :: (task, r) in d[job] && d[job][(task, r)] == Bucket(hash, n, files[task], r))
            && (forall j | j in data && j != job :: j in d && d[j] == data[j])
  {
    hide Bucket, KeysSendable;
    var b := Buckets(hash, n, files[task]);
    assert forall r | 0 <= r < n :: b[r] == Bucket(hash, n, files[task], r);
  }

  // MapPanicked stands for a remainder by zero reduce tasks or a key too long for the writer.
  datatype MapResult = MapDone | NotUtf8 | MapPanicked

  ghost function MapOutcome(t: Text, n: nat, content: Bytes): MapResult {
    var keys := Keys(t, content);
    if keys.None? then NotUtf8
    else if !KeysSendable(keys.value) || (n == 0 && keys.value != []) then MapPanicked
    else MapDone
  }

  // A file that decodes is mapped exactly if all keys of its letter runs fit a packet and there is a reduce task for
  // them, if any.
  lemma MapEnds(t: Text, n: nat, content: Bytes, words: seq<Bytes>)
    requires WordsOf(t, content, words)
    ensures MapOutcome(t, n, content)
            == if (forall i | 0 <= i < |words| :: |words[i]| <= 0xffff_ffff) && (|words| > 0 ==> n > 0) then MapDone else MapPanicked
  {
    hide WordsOf, Keys;
    WordsOnce(t, content, words);
  }

  // Worker::map() on the stored buffers: only a map task that is done changes them.
  ghost function MapTask(data: map<nat, Entries>, t: Text, hash: Bytes -> nat, job: nat, task: nat, n: nat, content: Bytes): map<nat, Entries> {
    if MapOutcome(t, n, content) == MapDone then Mapped(data, job, task, hash, n, Keys(t, content).value) else data
  }

  // Retry is the coordinator's to handle; Failed ends the job; Panicked stands for a panic of the reader, of
  // get_u64() or of the checked sum.
  datatype ReduceResult = Done(output: Bytes) | Retry | Failed | Panicked

  // The pairs of one buffer, appended: the reading loop of reduce.
  datatype Reading = Pushed(pairs: seq<KeyValue>) | NoValue | Stuck

  function ReadPairs(buf: Bytes): Reading {
    var d := Decode(buf);
    if d.None? then Stuck
    else
      var p := Pairs(d.value);
      if p.None? then NoValue else Pushed(p.value)
  }

  class WorkerState {
    var data: map<nat, Entries>

    constructor ()
      ensures data == map[]
    {
      data := map[];
    }

    // get_data()
    method GetData(job: nat, mapTask: nat, reduceTask: nat) returns (r: Option<Bytes>)
      ensures r == if job in data && (mapTask, reduceTask) in data[job] then Some(data[job][(mapTask, reduceTask)]) else None
    {
      if job !in data {
        return None;
      }
      if (mapTask, reduceTask) !in data[job] {
        return None;
      }
      return Some(data[job][(mapTask, reduceTask)]);
    }

    // Worker::map() on a file with the given content.
    method Map(t: Text, hash: Bytes -> nat, job: nat, task: nat, n: nat, content: Bytes) returns (r: MapResult)
      modifies this
      ensures r == MapOutcome(t, n, content)
      ensures data == MapTask(old(data), t, hash, job, task, n, content)
      ensures r == NotUtf8 <==> t.decode(content).None?
      ensures r != MapDone ==> data == old(data)
    {
      hide Keys, Bucket, Stored, Appended;
      KeysAreWords(t, content);
      var emitted := Keys(t, content);
      if emitted.None? {
        return NotUtf8;
      }
      var keys := emitted.value;
      var writers: seq<Bytes> := seq(n, _ => []);
      BucketsNone(hash, n, keys);
      var k: nat := 0;
      while k < |keys|
        invariant k <= |keys| && |writers| == n && data == old(data) && (k > 0 ==> n > 0)
        invariant KeysSendable(keys[..k]) && writers == Buckets(hash, n, keys[..k])
      {
        if n == 0 {
          return MapPanicked;
        }
        var idx := hash(keys[k]) % n;
        if !Sendable(keys[k]) {
          return MapPanicked;
        }
        OneSendable();
        BucketsGrow(hash, n, keys, k);
        writers := writers[idx := Appended(Appended(writers[idx], keys[k]), One())];
        k := k + 1;
      }
      assert keys[..k] == keys;
      var entry := if job in data then data[job] else map[];
      var i: nat := 0;
      StoredNone(entry, task, writers);
      while i < n
        invariant i <= n && data == old(data)
        invariant entry == Stored(EntriesOf(data, job), task, writers, i)
      {
        StoredOne(EntriesOf(data, job), task, writers, i);
        entry := entry[(task, i) := writers[i]];
        i := i + 1;
      }
      data := data[job := entry];
      return MapDone;
    }
  }

  lemma OneSendable()
    ensures Sendable(One())
  {}

  lemma StoredNone(entries: Entries, task: nat, buffers: seq<Bytes>)
    ensures Stored(entries, task, buffers, 0) == entries
  {}

  lemma StoredOne(entries: Entries, task: nat, buffers: seq<Bytes>, i: nat)
    requires i < |buffers|
    ensures Stored(entries, task, buffers, i + 1) == Stored(entries, task, buffers, i)[(task, i) := buffers[i]]
  {}

  lemma BucketsNone(hash: Bytes -> nat, n: nat, keys: seq<Bytes>)
    ensures keys[..0] == [] && Buckets(hash, n, []) == seq(n, _ => [])
  {}

  lemma BucketsGrow(hash: Bytes -> nat, n: nat, keys: seq<Bytes>, k: nat)
    requires n > 0 && k < |keys| && KeysSendable(keys[..k]) && Sendable(keys[k])
    ensures var before, idx := Buckets(hash, n, keys[..k]), hash(keys[k]) % n;
            && Sendable(keys[k]) && Sendable(One()) && KeysSendable(keys[..k + 1])
            && Buckets(hash, n, keys[..k + 1]) == before[idx := Appended(Appended(before[idx], keys[k]), One())]
  {
    hide Bucket, Appended;
    OneSendable();
    var upTo := keys[..k + 1];
    assert upTo[..k] == keys[..k] && upTo[..k + 1] == upTo;
    var before, idx := Buckets(hash, n, keys[..k]), hash(keys[k]) % n;
    var after := Buckets(hash, n, keys[..k + 1]);
    forall r | 0 <= r < n
      ensures after[r] == if r == idx then Appended(Appended(before[idx], keys[k]), One()) else before[r]
    {
      BucketGrows(hash, n, upTo, k, r);
    }
  }

  // The inner loop of reduce over one buffer, pushing on `pairs`.
  method ReadBuffer(buf: Bytes, pairs: seq<KeyValue>) returns (r: Reading)
    ensures r == match ReadPairs(buf) { case Pushed(p) => Pushed(pairs + p) case other => other }
  {
    hide GetU32, ReadOne;
    var reader := new LengthDelimitedReader(buf);
    var all := pairs;
    PushedNothing(pairs, ReadPairs(buf));
    while true
      invariant Prefixed(all, ReadPairs(reader.buf)) == Prefixed(pairs, ReadPairs(buf))
      decreases |reader.buf|
    {
      ReadPairsTurn(reader.buf);
      var key := reader.Next();
      if key.End? {
        assert Prefixed(all, Pushed([])) == Pushed(all);
        return Pushed(all);
      }
      if key.Malformed? {
        return Stuck;
      }
      var value := reader.Next();
      if value.End? {
        return NoValue;
      }
      if value.Malformed? {
        return Stuck;
      }
      var kv := KeyValue(key.packet, value.packet);
      PushedOne(all, kv, ReadPairs(reader.buf));
      all := all + [kv];
    }
  }

  function Prefixed(pairs: seq<KeyValue>, r: Reading): Reading {
    match r
    case Pushed(p) => Pushed(pairs + p)
    case other => other
  }

  lemma PushedNothing(pairs: seq<KeyValue>, r: Reading)
    ensures Prefixed(pairs, r) == match r { case Pushed(p) => Pushed(pairs + p) case other => other }
  {}

  lemma PushedOne(pairs: seq<KeyValue>, kv: KeyValue, r: Reading)
    ensures Prefixed(pairs, Prefixed([kv], r)) == Prefixed(pairs + [kv], r)
  {
    if r.Pushed? {
      assert pairs + ([kv] + r.pairs) == pairs + [kv] + r.pairs;
    }
  }

  // Reading a buffer, unfolded by one pair.
  lemma ReadPairsTurn(buf: Bytes)
    ensures var key := ReadOne(buf);
            ReadPairs(buf) ==
              (if key.End? then Pushed([])
               else if key.Malformed? then Stuck
               else
                 var value := ReadOne(key.rest);
                 if value.End? then NoValue
                 else if value.Malformed? then Stuck
                 else Prefixed([KeyValue(key.packet, value.packet)], ReadPairs(value.rest)))
  {
    hide ReadOne;
    var key := ReadOne(buf);
    DecodeTurn(buf);
    if key.Packet? {
      var value := ReadOne(key.rest);
      DecodeTurn(key.rest);
      if value.Packet? {
        var more := Decode(value.rest);
        if more.Some? {
          assert Decode(buf).value[2..] == more.value;
        }
      } else if value.End? {
        assert Decode(buf).value == [key.packet];
      }
    }
  }

  // The packets of the reduced pairs.
  function Flattened(out: seq<KeyValue>): seq<Bytes> {
    if out == [] then [] else Flattened(out[..|out| - 1]) + [out[|out| - 1].key, out[|out| - 1].value]
  }

  lemma {:induction false} PairsFlattened(out: seq<KeyValue>)
    ensures Pairs(Flattened(out)) == Some(out)
  {
    if out != [] {
      var m := |out| - 1;
      PairsFlattened(out[..m]);
      PairsAppend(Flattened(out[..m]), out[m].key, out[m].value);
      assert out == out[..m] + [KeyValue(out[m].key, out[m].value)];
    }
  }

  ghost predicate OutSendable(out: seq<KeyValue>) {
    forall j | 0 <= j < |out| :: Sendable(out[j].key) && Sendable(out[j].value)
  }

  lemma {:induction false} FlattenedSendable(out: seq<KeyValue>)
    requires OutSendable(out)
    ensures AllSendable(Flattened(out))
  {
    if out != [] { FlattenedSendable(out[..|out| - 1]); }
  }

  // ---- A reduce task ----

  datatype Collected = All(pairs: seq<KeyValue>) | Missing | Unpaired | Broken

  // The pairs of the first i answers, or how fetching or reading them fails.
  function Collect(sources: seq<Option<Bytes>>, i: nat): Collected
    requires i <= |sources|
  {
    if i == 0 then All([])
    else
      var before := Collect(sources, i - 1);
      if !before.All? then before
      else if sources[i - 1].None? then Missing
      else match ReadPairs(sources[i - 1].value)
        case Pushed(p) => All(before.pairs + p)
        case NoValue => Unpaired
        case Stuck => Broken
  }

  // The output of the reduced pairs; the writer panics on a key that is too long.
  ghost function Output(out: Option<seq<KeyValue>>): ReduceResult {
    if out.None? || !OutSendable(out.value) then Panicked
    else FlattenedSendable(out.value); Done(Encode(Flattened(out.value)))
  }

  // Worker::reduce(), from the answers of the map workers on.
  ghost function ReduceTask(sources: seq<Option<Bytes>>, sort: seq<KeyValue> -> seq<KeyValue>): ReduceResult {
    match Collect(sources, |sources|)
    case Missing => Retry
    case Unpaired => Failed
    case Broken => Panicked
    case All(pairs) => Output(Reduced(sort(pairs), 0))
  }

  // wc::reduce() on one group.
  method SumValues(s: seq<KeyValue>, i: nat, e: nat) returns (r: Option<nat>)
    requires i <= e <= |s|
    ensures r == Sum(s, i, e)
    ensures r.Some? ==> r.value < 0x1_0000_0000_0000_0000
  {
    hide GetU64;
    var count := 0;
    var j := i;
    while j < e
      invariant i <= j <= e && count < 0x1_0000_0000_0000_0000 && Sum(s, i, j) == Some(count)
    {
      if |s[j].value| < 8 || count + GetU64(s[j].value) >= 0x1_0000_0000_0000_0000 {
        SumStays(s, i, j + 1, e);
        return None;
      }
      count := count + GetU64(s[j].value);
      j := j + 1;
    }
    return Some(count);
  }

  lemma {:induction false} SumStays(s: seq<KeyValue>, i: nat, j: nat, e: nat)
    requires i <= j <= e <= |s| && Sum(s, i, j).None?
    ensures Sum(s, i, e).None?
  {
    if j < e { SumStays(s, i, j, e - 1); }
  }

  // The groups already written, with those still to come.
  function Joined(out: seq<KeyValue>, more: Option<seq<KeyValue>>): Option<seq<KeyValue>> {
    if more.None? then None else Some(out + more.value)
  }

  // The loop over the groups of the sorted pairs.
  method ReduceGroups(s: seq<KeyValue>) returns (r: ReduceResult)
    ensures r == Output(Reduced(s, 0))
  {
    hide Sum, GroupEnd, Reduced, Encode, Flattened, Appended, PutU64;
    var writer: Bytes := [];
    ghost var out: seq<KeyValue> := [];
    GroupsStart(s);
    var i: nat := 0;
    while i < |s|
      invariant i <= |s| && Joined(out, Reduced(s, i)) == Reduced(s, 0)
      invariant OutSendable(out) && AllSendable(Flattened(out)) && writer == Encode(Flattened(out))
    {
      var key := s[i].key;
      var e := FindGroupEnd(s, key, i + 1);
      var sum := SumValues(s, i, e);
      GroupTurn(s, i, out);
      if sum.None? {
        return Panicked;
      }
      if !Sendable(key) {
        return Panicked;
      }
      var value := PutU64(sum.value);
      SentPair(out, key, value);
      writer := Appended(Appended(writer, key), value);
      out := out + [KeyValue(key, value)];
      i := e;
    }
    GroupsEnd(s, out);
    return Done(writer);
  }

  method FindGroupEnd(s: seq<KeyValue>, k: Bytes, i: nat) returns (e: nat)
    requires i <= |s|
    ensures e == GroupEnd(s, k, i)
  {
    e := i;
    while e < |s| && s[e].key == k
      invariant i <= e <= |s| && GroupEnd(s, k, i) == GroupEnd(s, k, e)
    {
      e := e + 1;
    }
  }

  lemma GroupsStart(s: seq<KeyValue>)
    ensures Joined([], Reduced(s, 0)) == Reduced(s, 0)
    ensures Flattened([]) == [] && Encode([]) == []
  {
    if Reduced(s, 0).Some? { assert [] + Reduced(s, 0).value == Reduced(s, 0).value; }
  }

  lemma GroupsEnd(s: seq<KeyValue>, out: seq<KeyValue>)
    ensures Joined(out, Reduced(s, |s|)) == Some(out)
  {
    assert out + [] == out;
  }

  // One group: what reducing the rest gives, in terms of the group and what follows it.
  lemma GroupTurn(s: seq<KeyValue>, i: nat, out: seq<KeyValue>)
    requires i < |s|
    ensures var e := GroupEnd(s, s[i].key, i + 1);
            var sum := Sum(s, i, e);
            if sum.None? || sum.value >= 0x1_0000_0000_0000_0000 then Reduced(s, i).None?
            else
              && Joined(out, Reduced(s, i)) == Joined(out + [KeyValue(s[i].key, PutU64(sum.value))], Reduced(s, e))
              && (Reduced(s, i).Some? && !Sendable(s[i].key) ==> !OutSendable(Joined(out, Reduced(s, i)).value))
  {
    hide Sum, GroupEnd, PutU64, Sendable;
    var e := GroupEnd(s, s[i].key, i + 1);
    var sum, more := Sum(s, i, e), Reduced(s, e);
    if sum.Some? && sum.value < 0x1_0000_0000_0000_0000 && more.Some? {
      var kv := KeyValue(s[i].key, PutU64(sum.value));
      assert out + ([kv] + more.value) == out + [kv] + more.value;
      assert (out + [kv] + more.value)[|out|] == kv;
    }
  }

  lemma SentPair(out: seq<KeyValue>, k: Bytes, v: Bytes)
    requires OutSendable(out) && AllSendable(Flattened(out)) && Sendable(k) && |v| == 8
    ensures OutSendable(out + [KeyValue(k, v)]) && AllSendable(Flattened(out + [KeyValue(k, v)]))
    ensures Encode(Flattened(out + [KeyValue(k, v)])) == Appended(Appended(Encode(Flattened(out)), k), v)
  {
    hide Encode, Appended;
    var f := Flattened(out);
    assert (out + [KeyValue(k, v)])[..|out|] == out;
    EncodeAppended(f, k);
    EncodeAppended(f + [k], v);
    assert f + [k] + [v] == f + [k, v];
  }

  // Worker::reduce().  `sources` are the answers of the workers that hold the map outputs, None where one
  // cannot be had; `sort` is sort_unstable_by_key().
  method Reduce(sources: seq<Option<Bytes>>, sort: seq<KeyValue> -> seq<KeyValue>) returns (r: ReduceResult)
    ensures r == ReduceTask(sources, sort)
  {
    hide ReadPairs, Reduced, Output;
    var intermediate: seq<KeyValue> := [];
    var i: nat := 0;
    while i < |sources|
      invariant i <= |sources| && Collect(sources, i) == All(intermediate)
    {
      if sources[i].None? {
        CollectStays(sources, i + 1, |sources|);
        return Retry;
      }
      var read := ReadBuffer(sources[i].value, intermediate);
      CollectStays(sources, i + 1, |sources|);
      match read
      case NoValue => return Failed;
      case Stuck => return Panicked;
      case Pushed(p) => intermediate := p;
      i := i + 1;
    }
    r := ReduceGroups(sort(intermediate));
  }

  // A failure to collect is final.
  lemma {:induction false} CollectStays(sources: seq<Option<Bytes>>, i: nat, j: nat)
    requires i <= j <= |sources|
    ensures !Collect(sources, i).All? ==> Collect(sources, j) == Collect(sources, i)
  {
    if i < j { CollectStays(sources, i, j - 1); }
  }

  // The first answer that is missing or cannot be read decides how a reduce task fails: one that is missing is to be
  // tried again, a key without a value fails the job, and a buffer that no writer made is a panic.
  lemma ReduceFails(sources: seq<Option<Bytes>>, sort: seq<KeyValue> -> seq<KeyValue>, i: nat)
    requires i < |sources|
    requires forall j | 0 <= j < i :: sources[j].Some? && ReadPairs(sources[j].value).Pushed?
    ensures sources[i].None? ==> ReduceTask(sources, sort) == Retry
    ensures sources[i].Some? && ReadPairs(sources[i].value).NoValue? ==> ReduceTask(sources, sort) == Failed
    ensures sources[i].Some? && ReadPairs(sources[i].value).Stuck? ==> ReduceTask(sources, sort) == Panicked
  {
    hide ReadPairs, Reduced, Output;
    CollectsUpTo(sources, i);
    CollectStays(sources, i + 1, |sources|);
  }

  lemma {:induction false} CollectsUpTo(sources: seq<Option<Bytes>>, i: nat)
    requires i <= |sources|
    requires forall j | 0 <= j < i :: sources[j].Some? && ReadPairs(sources[j].value).Pushed?
    ensures Collect(sources, i).All?
  {
    hide ReadPairs;
    if i > 0 { CollectsUpTo(sources, i - 1); }
  }

  // How the three kinds of buffer look.
  lemma ReadingMeans(buf: Bytes)
    ensures ReadPairs(buf).Stuck? <==> Decode(buf).None?
    ensures ReadPairs(buf).NoValue? <==> Decode(buf).Some? && |Decode(buf).value| % 2 == 1
  {
    hide Decode;
    if Decode(buf).Some? { PairsWhenEven(Decode(buf).value); }
  }

  lemma {:induction false} PairsWhenEven(packets: seq<Bytes>)
    ensures Pairs(packets).Some? <==> |packets| % 2 == 0
    decreases |packets|
  {
    if |packets| > 1 { PairsWhenEven(packets[2..]); }
  }

  // ---- The job ----

  // The answers to reduce task r: bucket r of every file, from the worker that holds it.
  function Fetched(workers: seq<map<nat, Entries>>, holder: seq<nat>, job: nat, r: nat): seq<Option<Bytes>>
    requires forall m | 0 <= m < |holder| :: holder[m] < |workers|
  {
    seq(|holder|, m requires 0 <= m < |holder| && holder[m] < |workers| =>
      var entries := EntriesOf(workers[holder[m]], job);
      if (m, r) in entries then Some(entries[(m, r)]) else None)
  }

  lemma {:induction false} CollectGathers(hash: Bytes -> nat, n: nat, files: seq<seq<Bytes>>, r: nat, sources: seq<Option<Bytes>>, i: nat)
    requires n > 0 && i <= |files| == |sources|
    requires forall m | 0 <= m < |files| :: KeysSendable(files[m]) && sources[m] == Some(Bucket(hash, n, files[m], r))
    ensures Collect(sources, i) == All(Gathered(hash, n, files[..i], r))
  {
    hide Bucket, Decode, Pairs;
    if i > 0 {
      CollectGathers(hash, n, files, r, sources, i - 1);
      BucketReads(hash, n, files[i - 1], r);
      assert files[..i][..i - 1] == files[..i - 1];
    }
  }

  // Keys of an answer are keys of the files.
  lemma {:induction false} CountedIsThere(keys: seq<Bytes>, k: Bytes)
    requires CountIn(keys, k) > 0
    ensures k in keys
  {
    if keys[|keys| - 1] != k {
      CountedIsThere(keys[..|keys| - 1], k);
    }
  }

  lemma {:induction false} CountedSendable(files: seq<seq<Bytes>>, k: Bytes)
    requires Count(files, k) > 0 && forall m | 0 <= m < |files| :: KeysSendable(files[m])
    ensures Sendable(k)
  {
    var m := |files| - 1;
    if CountIn(files[m], k) > 0 {
      CountedIsThere(files[m], k);
    } else {
      CountedSendable(files[..m], k);
    }
  }

  // A reduce task whose inputs are the buckets of all files succeeds, and the file it writes reads back as
  // the answer for its words.
  lemma ReduceTaskAnswers(hash: Bytes -> nat, n: nat, files: seq<seq<Bytes>>, r: nat, sources: seq<Option<Bytes>>,
                          sort: seq<KeyValue> -> seq<KeyValue>)
    requires n > 0 && |files| == |sources| && CountsFit(files)
    requires forall m | 0 <= m < |files| :: KeysSendable(files[m]) && sources[m] == Some(Bucket(hash, n, files[m], r))
    requires forall s :: SortOf(s, sort(s))
    ensures var done := ReduceTask(sources, sort);
            done.Done? && ReadPairs(done.output).Pushed? && Answers(hash, n, files, r, ReadPairs(done.output).pairs)
  {
    hide Bucket, Gathered, SortOf, Answers, Reduced, Collect, CountsFit, Flattened, Encode, Decode, Pairs, GetU64;
    CollectGathers(hash, n, files, r, sources, |files|);
    assert files[..|files|] == files;
    var all := Gathered(hash, n, files, r);
    assert SortOf(all, sort(all));
    ReduceAnswers(hash, n, files, r, sort(all));
    var out := Reduced(sort(all), 0).value;
    AnswerSendable(hash, n, files, r, out);
    FlattenedSendable(out);
    DecodeEncode(Flattened(out));
    PairsFlattened(out);
  }

  lemma AnswerSendable(hash: Bytes -> nat, n: nat, files: seq<seq<Bytes>>, r: nat, out: seq<KeyValue>)
    requires n > 0 && Answers(hash, n, files, r, out) && forall m | 0 <= m < |files| :: KeysSendable(files[m])
    ensures OutSendable(out)
  {
    hide GetU64, Count, HasKey, KeysSendable;
    forall j | 0 <= j < |out| ensures Sendable(out[j].key) {
      KeyAt(out, j);
      CountedSendable(files, out[j].key);
    }
  }

  // The whole job: whatever workers ran the map tasks, and however often, if every file's buckets can be
  // fetched then every reduce task succeeds with the answer for its words.
  lemma JobAnswers(hash: Bytes -> nat, n: nat, files: seq<seq<Bytes>>, workers: seq<map<nat, Entries>>, holder: seq<nat>,
                   job: nat, sort: seq<KeyValue> -> seq<KeyValue>, r: nat)
    requires n > 0 && r < n && |holder| == |files| && CountsFit(files)
    requires forall w | 0 <= w < |workers| :: Faithful(EntriesOf(workers[w], job), hash, n, files)
    requires forall m | 0 <= m < |files| :: holder[m] < |workers| && (m, r) in EntriesOf(workers[holder[m]], job)
    requires forall s :: SortOf(s, sort(s))
    ensures var done := ReduceTask(Fetched(workers, holder, job, r), sort);
            done.Done? && ReadPairs(done.output).Pushed? && Answers(hash, n, files, r, ReadPairs(done.output).pairs)
  {
    hide Bucket, Answers, ReduceTask, SortOf, CountsFit, ReadPairs, EntriesOf;
    var sources := Fetched(workers, holder, job, r);
    forall m | 0 <= m < |files| ensures KeysSendable(files[m]) && sources[m] == Some(Bucket(hash, n, files[m], r)) {
      assert Faithful(EntriesOf(workers[holder[m]], job), hash, n, files);
    }
    ReduceTaskAnswers(hash, n, files, r, sources, sort);
  }
}
