// A whole word-count job: any run of map tasks on any workers, then every reduce task.
module Job {
  import opened Common
  import opened Codec
  import opened WordCount
  import opened Worker

  // A worker runs a map task of some job on a file with this content.
  datatype Event = Event(worker: nat, job: nat, task: nat, n: nat, content: Bytes)

  type Cluster = seq<map<nat, Entries>>

  // The stored buffers of all workers after the events; an event at a worker that does not exist does nothing.
  ghost function After(t: Text, hash: Bytes -> nat, workers: Cluster, events: seq<Event>): (r: Cluster)
    ensures |r| == |workers|
  {
    if events == [] then workers
    else
      var before, e := After(t, hash, workers, events[..|events| - 1]), events[|events| - 1];
      if e.worker < |workers|
      then before[e.worker := MapTask(before[e.worker], t, hash, e.job, e.task, e.n, e.content)]
      else before
  }

  // Every event of the job is a map task of one of its files, for its number of reduce tasks.
  ghost predicate OfJob(events: seq<Event>, job: nat, n: nat, contents: seq<Bytes>) {
    forall i | 0 <= i < |events| && events[i].job == job ::
      events[i].task < |contents| && events[i].n == n && events[i].content == contents[events[i].task]
  }

  // Worker w has run map task m of the job.
  ghost predicate Ran(events: seq<Event>, job: nat, w: nat, m: nat) {
    exists i :: 0 <= i < |events| && events[i].job == job && events[i].worker == w && events[i].task == m
  }

  // The words of every file: all are UTF-8, with no word too long for the codec.
  ghost predicate Readable(t: Text, contents: seq<Bytes>) {
    forall m | 0 <= m < |contents| ::
      Keys(t, contents[m]).Some? && KeysSendable(Keys(t, contents[m]).value)
  }

  ghost function Files(t: Text, contents: seq<Bytes>): (f: seq<seq<Bytes>>)
    requires Readable(t, contents)
    ensures |f| == |contents| && forall m | 0 <= m < |f| :: f[m] == Keys(t, contents[m]).value
  {
    seq(|contents|, m requires 0 <= m < |contents| && Readable(t, contents) => Keys(t, contents[m]).value)
  }

  // What a worker holds is faithful, and holds all buckets of the map tasks it has run.
  ghost predicate UpToDate(entries: Entries, events: seq<Event>, job: nat, w: nat, hash: Bytes -> nat, n: nat, files: seq<seq<Bytes>>)
    requires n > 0
  {
    && Faithful(entries, hash, n, files)
    && forall m: nat, r: nat | Ran(events, job, w, m) && r < n :: (m, r) in entries
  }

  // One map task on one worker, for whichever job.
  lemma MapKeepsUpToDate(data: map<nat, Entries>, t: Text, hash: Bytes -> nat, events: seq<Event>, e: Event,
                         job: nat, n: nat, contents: seq<Bytes>)
    requires n > 0 && Readable(t, contents) && OfJob(events + [e], job, n, contents)
    requires UpToDate(EntriesOf(data, job), events, job, e.worker, hash, n, Files(t, contents))
    ensures UpToDate(EntriesOf(MapTask(data, t, hash, e.job, e.task, e.n, e.content), job), events + [e], job, e.worker,
                     hash, n, Files(t, contents))
  {
    hide Bucket, Keys, KeysSendable, Stored, Faithful;
    var files, more := Files(t, contents), events + [e];
    assert more[|events|] == e;
    var after := MapTask(data, t, hash, e.job, e.task, e.n, e.content);
    if e.job == job {
      MapFaithful(data, job, e.task, hash, n, files);
      MapStores(data, job, e.task, hash, n, files[e.task]);
    }
    forall m: nat, r: nat | Ran(more, job, e.worker, m) && r < n ensures (m, r) in EntriesOf(after, job) {
      RanMore(events, e, job, e.worker, m);
    }
  }

  lemma MapStores(data: map<nat, Entries>, job: nat, task: nat, hash: Bytes -> nat, n: nat, keys: seq<Bytes>)
    requires KeysSendable(keys)
    ensures var d := Mapped(data, job, task, hash, n, keys);
            forall m: nat, r: nat | (m, r) in EntriesOf(data, job) :: (m, r) in EntriesOf(d, job)
  {
    hide Bucket;
  }

  lemma RanMore(events: seq<Event>, e: Event, job: nat, w: nat, m: nat)
    ensures Ran(events + [e], job, w, m) <==> Ran(events, job, w, m) || (e.job == job && e.worker == w && e.task == m)
  {
    var more := events + [e];
    assert more[|events|] == e;
    if Ran(events, job, w, m) {
      var i :| 0 <= i < |events| && events[i].job == job && events[i].worker == w && events[i].task == m;
      assert more[i] == events[i];
    }
  }

  // Over every run of map tasks, in any order, any number of times and mixed with other jobs.
  lemma {:induction false} RunUpToDate(t: Text, hash: Bytes -> nat, count: nat, events: seq<Event>, job: nat, n: nat,
                                       contents: seq<Bytes>, w: nat)
    requires n > 0 && w < count && Readable(t, contents) && OfJob(events, job, n, contents)
    ensures UpToDate(EntriesOf(After(t, hash, seq(count, _ => map[]), events)[w], job), events, job, w, hash, n, Files(t, contents))
  {
    hide MapTask, Readable, UpToDate, Files;
    var start: Cluster := seq(count, _ => map[]);
    if events == [] {
      NothingHeld(hash, n, Files(t, contents), job, w);
    } else {
      var k := |events| - 1;
      var before, e := events[..k], events[k];
      assert events == before + [e];
      RunUpToDate(t, hash, count, before, job, n, contents, w);
      var data := After(t, hash, start, before);
      if e.worker == w {
        MapKeepsUpToDate(data[w], t, hash, before, e, job, n, contents);
      } else {
        OtherWorker(EntriesOf(data[w], job), before, e, job, w, hash, n, Files(t, contents));
      }
    }
  }

  lemma NothingHeld(hash: Bytes -> nat, n: nat, files: seq<seq<Bytes>>, job: nat, w: nat)
    requires n > 0
    ensures UpToDate(EntriesOf(map[], job), [], job, w, hash, n, files)
  {}

  lemma OtherWorker(entries: Entries, events: seq<Event>, e: Event, job: nat, w: nat, hash: Bytes -> nat, n: nat, files: seq<seq<Bytes>>)
    requires n > 0 && UpToDate(entries, events, job, w, hash, n, files) && e.worker != w
    ensures UpToDate(entries, events + [e], job, w, hash, n, files)
  {
    hide Faithful;
    forall m: nat, r: nat | Ran(events + [e], job, w, m) && r < n ensures (m, r) in entries {
      RanMore(events, e, job, w, m);
    }
  }

  // The pairs of a reduce task's output file.
  function PairsOf(r: ReduceResult): seq<KeyValue> {
    if r.Done? && ReadPairs(r.output).Pushed? then ReadPairs(r.output).pairs else []
  }

  ghost function Outputs(workers: Cluster, holder: seq<nat>, job: nat, n: nat, sort: seq<KeyValue> -> seq<KeyValue>): (o: seq<ReduceResult>)
    requires forall m | 0 <= m < |holder| :: holder[m] < |workers|
    ensures |o| == n && forall r | 0 <= r < n :: o[r] == ReduceTask(Fetched(workers, holder, job, r), sort)
  {
    seq(n, r requires 0 <= r < n && forall m | 0 <= m < |holder| :: holder[m] < |workers| =>
      ReduceTask(Fetched(workers, holder, job, r), sort))
  }

  lemma AnswerSorted(hash: Bytes -> nat, n: nat, files: seq<seq<Bytes>>, r: nat, out: seq<KeyValue>)
    requires n > 0 && Answers(hash, n, files, r, out)
    ensures SortedByKey(out)
  {}

  // The job from beginning to end.  Workers start with nothing; map tasks run in any order, on any workers and
  // any number of times, mixed with those of other jobs, such that every map task of this job has run on the
  // worker recorded as its holder.  Then every reduce task succeeds, and the outputs together are the
  // sequential count of the words of the files, each output in the order of its keys.
  lemma JobIsSequentialCount(t: Text, hash: Bytes -> nat, sort: seq<KeyValue> -> seq<KeyValue>, count: nat,
                             events: seq<Event>, job: nat, n: nat, contents: seq<Bytes>, files: seq<seq<Bytes>>, holder: seq<nat>)
    requires n > 0 && |holder| == |contents| == |files| && OfJob(events, job, n, contents)
    requires forall m | 0 <= m < |files| :: WordsOf(t, contents[m], files[m]) && KeysSendable(files[m])
    requires CountsFit(files)
    requires forall m | 0 <= m < |holder| :: holder[m] < count && Ran(events, job, holder[m], m)
    requires forall s :: SortOf(s, sort(s))
    ensures var outs := Outputs(After(t, hash, seq(count, _ => map[]), events), holder, job, n, sort);
            && (forall r | 0 <= r < n :: outs[r].Done?)
            && (forall r | 0 <= r < n :: SortedByKey(PairsOf(outs[r])))
            && SequentialCount(files, seq(n, r requires 0 <= r < n => PairsOf(outs[r])))
  {
    hide CountsFit, SortOf, ReduceTask, Answers, SequentialCount, ReadPairs, After, Fetched, OfJob, Ran, WordsOf, Keys, SortedByKey;
    forall m | 0 <= m < |files| ensures Keys(t, contents[m]) == Some(files[m]) {
      WordsOnce(t, contents[m], files[m]);
    }
    assert Files(t, contents) == files;
    hide Readable, Files;
    var workers := After(t, hash, seq(count, _ => map[]), events);
    var outs := Outputs(workers, holder, job, n, sort);
    forall w: nat | w < count ensures UpToDate(EntriesOf(workers[w], job), events, job, w, hash, n, files) {
      RunUpToDate(t, hash, count, events, job, n, contents, w);
    }
    forall r: nat | r < n
      ensures outs[r].Done? && ReadPairs(outs[r].output).Pushed? && Answers(hash, n, files, r, PairsOf(outs[r]))
      ensures SortedByKey(PairsOf(outs[r]))
    {
      JobAnswers(hash, n, files, workers, holder, job, sort, r);
      AnswerSorted(hash, n, files, r, PairsOf(outs[r]));
    }
    AnswersAreCount(hash, n, files, seq(n, r requires 0 <= r < n => PairsOf(outs[r])));
  }
}
