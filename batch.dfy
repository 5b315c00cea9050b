/**
 * The batch orchestrator of the current search (`findPinHoleInImages`) and
 * the camera/date loop of `main` that feeds it: skip images the store already
 * holds, run `findPinhole` on the rest, merge the records in completion order
 * and commit once.
 */
module PinholeBatch {
  import opened Common
  import opened Numerics
  import opened PinholeDb
  import opened PinholeSearch

  // ---------------------------------------------------------------------------
  // Image references and the worker

  /** A frame as `findPinhole` reads it: the header of the image extension,
      its pixels, and whether the pixel array holds integers. */
  datatype Frame = Frame(header: Header, data: Grid, integerPixels: bool)

  /** One entry of an image listing: its file name and the frame the worker
      obtains for it, or None when opening or downloading it raises. */
  datatype ImageEntry = ImageEntry(filename: string, frame: Option<Frame>)

  /** The entry's frame, if any, is a rectangular pixel array. */
  ghost predicate ReadableEntry(e: ImageEntry) {
    e.frame.Some? ==> IsMatrix(e.frame.value.data)
  }

  /** Every frame in the listing is a rectangular pixel array. */
  ghost predicate Readable(images: seq<ImageEntry>) {
    forall i :: 0 <= i < |images| ==> ReadableEntry(images[i])
  }

  /** `os.path.basename`: everything after the last '/'. */
  function Basename(p: string): (b: string)
    ensures '/' !in b
    ensures |b| <= |p| && b == p[|p| - |b|..]
    ensures |b| < |p| ==> p[|p| - |b| - 1] == '/'
    decreases |p|
  {
    if |p| == 0 || p[|p| - 1] == '/' then ""
    else
      var b := Basename(p[..|p| - 1]);
      SuffixExtend(p, b);
      b + [p[|p| - 1]]
  }

  /** A '/'-free suffix of all but the last character, preceded by '/' when
      shorter, grows by that last character, when it is not '/', into such a
      suffix of the whole path. */
  lemma SuffixExtend(p: string, b: string)
    requires |p| > 0 && p[|p| - 1] != '/' && '/' !in b
    requires |b| <= |p| - 1 && b == p[..|p| - 1][|p| - 1 - |b|..]
    requires |b| < |p| - 1 ==> p[..|p| - 1][|p| - 2 - |b|] == '/'
    ensures var r := b + [p[|p| - 1]];
      '/' !in r && |r| <= |p| && r == p[|p| - |r|..] && (|r| < |p| ==> p[|p| - |r| - 1] == '/')
  {
    var n := |p| - 1;
    assert p[..n][n - |b|..] == p[n - |b|..n];
    assert p[n - |b|..] == p[n - |b|..n] + [p[n]];
  }

  /** The name of a file in a directory is its base name. */
  lemma {:induction false} BasenameOfPath(dir: string, name: string)
    requires '/' !in name
    ensures Basename(dir + "/" + name) == name
    decreases |name|
  {
    var p := dir + "/" + name;
    if |name| == 0 {
      assert p[|p| - 1] == '/';
    } else {
      var last := name[|name| - 1];
      assert p[..|p| - 1] == dir + "/" + name[..|name| - 1];
      BasenameOfPath(dir, name[..|name| - 1]);
      assert name == name[..|name| - 1] + [last];
    }
  }

  /** A base name is its own base name. */
  lemma BasenameIdempotent(p: string)
    ensures Basename(Basename(p)) == Basename(p)
  {
  }

  /** `findPinhole(basename, args, frameid)` in a worker process. */
  function Work(e: ImageEntry, np: NumPy, schema: set<string>): Outcome
    requires Sound(np) && ReadableEntry(e)
  {
    match e.frame
    case None => Raised
    case Some(f) => FindPinholeSpec(Basename(e.filename), f.header, f.data, f.integerPixels, np, schema)
  }

  /** A record a worker returns is filed under the image's base name, the
      same name the existence check asks about. */
  lemma WorkRecordKey(e: ImageEntry, np: NumPy, schema: set<string>, m: Measurement)
    requires Sound(np) && ReadableEntry(e)
    requires Work(e, np, schema) == Returned(Some(m))
    ensures m.imagename == Basename(e.filename)
  {
    var f := e.frame.value;
    RecordFields(Basename(e.filename), f.header, f.data, f.integerPixels, np, schema, m);
  }

  /** What a worker process ends in for an image: `findPinhole` for the
      batches `main` runs. */
  type Worker = ImageEntry -> Outcome

  /** `findPinhole` as the pool's worker. A frame that is not a rectangular
      array cannot come out of the FITS reader, so such an entry is given the
      outcome of a raised exception. */
  ghost function FindPinholeWorker(np: NumPy, schema: set<string>): (w: Worker)
    requires Sound(np)
    ensures forall e :: ReadableEntry(e) ==> w(e) == Work(e, np, schema)
  {
    e => if ReadableEntry(e) then Work(e, np, schema) else Raised
  }

  /** Every record the worker returns is filed under the image's base name. */
  ghost predicate KeysByBasename(work: Worker) {
    forall e :: work(e).Returned? && work(e).record.Some? ==> work(e).record.value.imagename == Basename(e.filename)
  }

  /** `findPinhole` files its records under the base name it is given. */
  lemma FindPinholeWorkerKeys(np: NumPy, schema: set<string>)
    requires Sound(np)
    ensures KeysByBasename(FindPinholeWorker(np, schema))
  {
    var w := FindPinholeWorker(np, schema);
    forall e | w(e).Returned? && w(e).record.Some?
      ensures w(e).record.value.imagename == Basename(e.filename)
    {
      WorkRecordKey(e, np, schema, w(e).record.value);
    }
  }

  // ---------------------------------------------------------------------------
  // The three phases of a batch, as functions

  /** The image is skipped without being submitted. */
  predicate Skips(e: ImageEntry, rows: Table, reprocess: bool, hasStore: bool) {
    !reprocess && hasStore && Basename(e.filename) in rows
  }

  /** The images submitted to the pool, in listing order. */
  function Submitted(images: seq<ImageEntry>, rows: Table, reprocess: bool, hasStore: bool): (r: seq<ImageEntry>)
    ensures |r| <= |images|
    decreases |images|
  {
    if |images| == 0 then []
    else
      var last := images[|images| - 1];
      var prev := Submitted(images[..|images| - 1], rows, reprocess, hasStore);
      assert images == images[..|images| - 1] + [last];
      if Skips(last, rows, reprocess, hasStore) then prev else prev + [last]
  }

  /** An image is submitted exactly when it is listed and not skipped. */
  lemma {:induction false} SubmittedMembers(images: seq<ImageEntry>, rows: Table, reprocess: bool, hasStore: bool,
                                            e: ImageEntry)
    ensures e in Submitted(images, rows, reprocess, hasStore) <==> e in images && !Skips(e, rows, reprocess, hasStore)
    decreases |images|
  {
    if |images| > 0 {
      var n := |images| - 1;
      SubmittedMembers(images[..n], rows, reprocess, hasStore, e);
      assert images == images[..n] + [images[n]];
    }
  }

  /** `order` lists each of the `n` submitted futures as the pool reports it
      done. */
  predicate IsCompletionOrder(order: seq<nat>, n: nat) {
    |order| == n && (forall k :: 0 <= k < n ==> order[k] < n) && (forall i :: 0 <= i < n ==> i in order)
  }

  /** The futures of the submitted workers, in submission order: each holds
      what `findPinhole` ends in for its image. */
  function Futures(subs: seq<ImageEntry>, work: Worker): (r: seq<Outcome>)
    ensures |r| == |subs|
    decreases |subs|
  {
    if |subs| == 0 then []
    else Futures(subs[..|subs| - 1], work) + [work(subs[|subs| - 1])]
  }

  /** The values `future.result()` returns, in completion order; a future
      whose worker raised adds nothing. */
  function Collected(futures: seq<Outcome>, order: seq<nat>): (r: seq<Option<Measurement>>)
    requires forall k :: 0 <= k < |order| ==> order[k] < |futures|
    ensures |r| <= |order|
    decreases |order|
  {
    if |order| == 0 then []
    else
      var prev := Collected(futures, order[..|order| - 1]);
      var o := futures[order[|order| - 1]];
      if o.Returned? then prev + [o.record] else prev
  }

  /** The merge loop: each record that is not None is upserted by image name,
      unless the session raises on it. */
  function MergeAll(t: Table, results: seq<Option<Measurement>>, fails: Measurement -> bool): Table
    decreases |results|
  {
    if |results| == 0 then t
    else
      var prev := MergeAll(t, results[..|results| - 1], fails);
      var datum := results[|results| - 1];
      if datum.Some? && !fails(datum.value) then Upsert(prev, datum.value) else prev
  }

  /** The index of a result the merge loop writes to the table. */
  predicate Merged(results: seq<Option<Measurement>>, fails: Measurement -> bool, i: int) {
    0 <= i < |results| && results[i].Some? && !fails(results[i].value)
  }

  /** The image names the merge loop writes. */
  function MergedNames(results: seq<Option<Measurement>>, fails: Measurement -> bool): set<string> {
    set i | 0 <= i < |results| && Merged(results, fails, i) :: results[i].value.imagename
  }

  // ---------------------------------------------------------------------------
  // Properties of the merge

  /** After the merge loop the table holds its old keys and the names merged. */
  lemma {:induction false} MergeAllKeys(t: Table, results: seq<Option<Measurement>>, fails: Measurement -> bool)
    ensures MergeAll(t, results, fails).Keys == t.Keys + MergedNames(results, fails)
    decreases |results|
  {
    if |results| > 0 {
      var n := |results| - 1;
      var init := results[..n];
      MergeAllKeys(t, init, fails);
      assert forall i :: Merged(init, fails, i) <==> 0 <= i < n && Merged(results, fails, i);
      if Merged(results, fails, n) {
        assert MergedNames(results, fails) == MergedNames(init, fails) + {results[n].value.imagename};
      } else {
        assert MergedNames(results, fails) == MergedNames(init, fails);
      }
    }
  }

  /** A record the merge loop does not write keeps its old value. */
  lemma {:induction false} MergeAllKeepsOthers(t: Table, results: seq<Option<Measurement>>,
                                               fails: Measurement -> bool, k: string)
    requires forall i :: Merged(results, fails, i) ==> results[i].value.imagename != k
    ensures k in MergeAll(t, results, fails) <==> k in t
    ensures k in t ==> MergeAll(t, results, fails)[k] == t[k]
    decreases |results|
  {
    if |results| > 0 {
      var n := |results| - 1;
      MergeAllKeepsOthers(t, results[..n], fails, k);
    }
  }

  /** The last merged record with a given name is the one the table holds. */
  lemma {:induction false} MergeAllLastWins(t: Table, results: seq<Option<Measurement>>,
                                            fails: Measurement -> bool, i: nat)
    requires Merged(results, fails, i)
    requires forall j :: i < j < |results| && Merged(results, fails, j) ==>
      results[j].value.imagename != results[i].value.imagename
    ensures var k := results[i].value.imagename;
      k in MergeAll(t, results, fails) && MergeAll(t, results, fails)[k] == results[i].value
    decreases |results|
  {
    var n := |results| - 1;
    if i < n {
      MergeAllLastWins(t, results[..n], fails, i);
    }
  }

  /** Merging files every record under its own name. */
  lemma {:induction false} MergeAllKeyed(t: Table, results: seq<Option<Measurement>>, fails: Measurement -> bool)
    requires Keyed(t)
    ensures Keyed(MergeAll(t, results, fails))
    decreases |results|
  {
    if |results| > 0 {
      var n := |results| - 1;
      MergeAllKeyed(t, results[..n], fails);
      if results[n].Some? && !fails(results[n].value) {
        UpsertKeepsKeyed(MergeAll(t, results[..n], fails), results[n].value);
      }
    }
  }

  /** A future that returned a value contributes it to the collected list. */
  lemma {:induction false} CollectedHolds(futures: seq<Outcome>, order: seq<nat>, k: nat)
    requires forall j :: 0 <= j < |order| ==> order[j] < |futures|
    requires k < |order| && futures[order[k]].Returned?
    ensures futures[order[k]].record in Collected(futures, order)
    decreases |order|
  {
    var n := |order| - 1;
    if k < n {
      CollectedHolds(futures, order[..n], k);
    }
  }

  /** Everything collected is the return value of some future. */
  lemma {:induction false} CollectedFrom(futures: seq<Outcome>, order: seq<nat>, x: Option<Measurement>)
    requires forall j :: 0 <= j < |order| ==> order[j] < |futures|
    requires x in Collected(futures, order)
    ensures exists k :: 0 <= k < |order| && futures[order[k]] == Returned(x)
    decreases |order|
  {
    var n := |order| - 1;
    var prev := Collected(futures, order[..n]);
    if x in prev {
      CollectedFrom(futures, order[..n], x);
      var k :| 0 <= k < n && futures[order[..n][k]] == Returned(x);
      assert order[..n][k] == order[k];
    }
  }

  /** When every merged record with a given name is the same record, the
      table holds that record, whatever the order of the merges. */
  lemma {:induction false} MergeAllUniform(t: Table, results: seq<Option<Measurement>>, fails: Measurement -> bool,
                                           m: Measurement, i: nat)
    requires Merged(results, fails, i) && results[i].value == m
    requires forall j :: Merged(results, fails, j) && results[j].value.imagename == m.imagename ==> results[j].value == m
    ensures m.imagename in MergeAll(t, results, fails) && MergeAll(t, results, fails)[m.imagename] == m
    decreases |results|
  {
    var n := |results| - 1;
    if !(Merged(results, fails, n) && results[n].value.imagename == m.imagename) {
      MergeAllUniform(t, results[..n], fails, m, i);
    }
  }

  /** Future `i` in submission order holds the outcome of image `i`. */
  lemma {:induction false} FuturesAt(subs: seq<ImageEntry>, work: Worker, i: nat)
    requires i < |subs|
    ensures Futures(subs, work)[i] == work(subs[i])
    decreases |subs|
  {
    var n := |subs| - 1;
    var init := subs[..n];
    assert Futures(subs, work) == Futures(init, work) + [work(subs[n])];
    if i < n {
      FuturesAt(init, work, i);
      assert init[i] == subs[i];
    }
  }

  /** The future at index `i` returned `m`, and the merge of `m` goes through. */
  predicate Yields(futures: seq<Outcome>, fails: Measurement -> bool, i: int, m: Measurement) {
    0 <= i < |futures| && futures[i] == Returned(Some(m)) && !fails(m)
  }

  /** No two futures return records with the same image name. */
  predicate DistinctRecords(futures: seq<Outcome>) {
    forall i, j ::
      (0 <= i < |futures| && 0 <= j < |futures| &&
       futures[i].Returned? && futures[i].record.Some? && futures[j].Returned? && futures[j].record.Some? &&
       futures[i].record.value.imagename == futures[j].record.value.imagename) ==> i == j
  }

  /** With distinct names, a record a future yields is the one the merged
      table holds under its name, whatever the completion order. */
  lemma CollectedMergeAt(t: Table, futures: seq<Outcome>, order: seq<nat>, fails: Measurement -> bool,
                         i: nat, m: Measurement)
    requires IsCompletionOrder(order, |futures|) && DistinctRecords(futures) && Yields(futures, fails, i, m)
    ensures var merged := MergeAll(t, Collected(futures, order), fails);
      m.imagename in merged && merged[m.imagename] == m
  {
    var results := Collected(futures, order);
    assert i in order;
    var k :| 0 <= k < |order| && order[k] == i;
    CollectedHolds(futures, order, k);
    var idx :| 0 <= idx < |results| && results[idx] == Some(m);
    forall j | Merged(results, fails, j) && results[j].value.imagename == m.imagename
      ensures results[j].value == m
    {
      CollectedFrom(futures, order, results[j]);
      var k' :| 0 <= k' < |order| && futures[order[k']] == Returned(results[j]);
    }
    MergeAllUniform(t, results, fails, m, idx);
  }

  /** A name no future yields keeps its old record, or stays absent. */
  lemma CollectedMergeElse(t: Table, futures: seq<Outcome>, order: seq<nat>, fails: Measurement -> bool, key: string)
    requires IsCompletionOrder(order, |futures|)
    requires forall i, m :: Yields(futures, fails, i, m) ==> m.imagename != key
    ensures var merged := MergeAll(t, Collected(futures, order), fails);
      (key in merged <==> key in t) && (key in t ==> merged[key] == t[key])
  {
    var results := Collected(futures, order);
    forall j | Merged(results, fails, j) ensures results[j].value.imagename != key {
      CollectedFrom(futures, order, results[j]);
      var k :| 0 <= k < |order| && futures[order[k]] == Returned(results[j]);
      assert Yields(futures, fails, order[k], results[j].value);
    }
    MergeAllKeepsOthers(t, results, fails, key);
  }

  /** When no two futures return records with the same name, the order in
      which the pool reports them done does not change the merged table. */
  lemma CompletionOrderIrrelevant(t: Table, futures: seq<Outcome>, order1: seq<nat>, order2: seq<nat>,
                                  fails: Measurement -> bool)
    requires IsCompletionOrder(order1, |futures|) && IsCompletionOrder(order2, |futures|)
    requires DistinctRecords(futures)
    ensures MergeAll(t, Collected(futures, order1), fails) == MergeAll(t, Collected(futures, order2), fails)
  {
    var a := MergeAll(t, Collected(futures, order1), fails);
    var b := MergeAll(t, Collected(futures, order2), fails);
    forall key | true
      ensures (key in a <==> key in b) && (key in a ==> a[key] == b[key])
    {
      if i, m :| Yields(futures, fails, i, m) && m.imagename == key {
        CollectedMergeAt(t, futures, order1, fails, i, m);
        CollectedMergeAt(t, futures, order2, fails, i, m);
      } else {
        CollectedMergeElse(t, futures, order1, fails, key);
        CollectedMergeElse(t, futures, order2, fails, key);
      }
    }
    assert a.Keys == b.Keys;
  }

  // ---------------------------------------------------------------------------
  // Properties of a whole batch

  /** No two images in the listing share a base name. */
  predicate DistinctBasenames(images: seq<ImageEntry>) {
    forall i, j {:trigger Basename(images[i].filename), Basename(images[j].filename)} ::
      (0 <= i < |images| && 0 <= j < |images| &&
       Basename(images[i].filename) == Basename(images[j].filename)) ==> i == j
  }

  /** Appending an image whose base name no earlier image has keeps the base
      names distinct. */
  lemma DistinctExtend(prev: seq<ImageEntry>, last: ImageEntry)
    requires DistinctBasenames(prev)
    requires forall i :: 0 <= i < |prev| ==> Basename(prev[i].filename) != Basename(last.filename)
    ensures DistinctBasenames(prev + [last])
  {
    var r := prev + [last];
    forall i, j | 0 <= i < |r| && 0 <= j < |r| && i != j
      ensures Basename(r[i].filename) != Basename(r[j].filename)
    {
      if i < |prev| && j < |prev| {
        assert r[i] == prev[i] && r[j] == prev[j];
      } else if i < |prev| {
        assert r[i] == prev[i] && r[j] == last;
      } else {
        assert r[i] == last && r[j] == prev[j];
      }
    }
  }

  /** An image listed before the last one has another base name. */
  lemma EarlierDiffers(images: seq<ImageEntry>, e: ImageEntry)
    requires DistinctBasenames(images) && |images| > 0
    requires e in images[..|images| - 1]
    ensures Basename(e.filename) != Basename(images[|images| - 1].filename)
  {
    var n := |images| - 1;
    var j :| 0 <= j < n && images[..n][j] == e;
    assert images[j] == e;
  }

  /** A prefix of a listing with distinct base names has distinct base names. */
  lemma DistinctPrefix(images: seq<ImageEntry>, n: nat)
    requires DistinctBasenames(images) && n <= |images|
    ensures DistinctBasenames(images[..n])
  {
    var init := images[..n];
    forall i, j | 0 <= i < n && 0 <= j < n && Basename(init[i].filename) == Basename(init[j].filename)
      ensures i == j
    {
      assert init[i] == images[i] && init[j] == images[j];
    }
  }

  /** The last image of a listing with distinct base names extends, with
      distinct base names, what was submitted before it. */
  lemma SubmittedExtend(images: seq<ImageEntry>, rows: Table, reprocess: bool, hasStore: bool,
                        prev: seq<ImageEntry>)
    requires DistinctBasenames(images) && |images| > 0
    requires prev == Submitted(images[..|images| - 1], rows, reprocess, hasStore) && DistinctBasenames(prev)
    ensures DistinctBasenames(prev + [images[|images| - 1]])
  {
    var n := |images| - 1;
    forall i | 0 <= i < |prev| ensures Basename(prev[i].filename) != Basename(images[n].filename) {
      SubmittedMembers(images[..n], rows, reprocess, hasStore, prev[i]);
      EarlierDiffers(images, prev[i]);
    }
    DistinctExtend(prev, images[n]);
  }

  /** Skipping keeps base names distinct. */
  lemma {:induction false} SubmittedDistinct(images: seq<ImageEntry>, rows: Table, reprocess: bool, hasStore: bool)
    requires DistinctBasenames(images)
    ensures DistinctBasenames(Submitted(images, rows, reprocess, hasStore))
    decreases |images|
  {
    if |images| > 0 {
      var n := |images| - 1;
      DistinctPrefix(images, n);
      SubmittedDistinct(images[..n], rows, reprocess, hasStore);
      var prev := Submitted(images[..n], rows, reprocess, hasStore);
      SubmittedLast(images, rows, reprocess, hasStore);
      if !Skips(images[n], rows, reprocess, hasStore) {
        SubmittedExtend(images, rows, reprocess, hasStore, prev);
      }
    }
  }

  /** The last image of a listing is submitted after the others unless it is
      skipped. */
  lemma SubmittedLast(images: seq<ImageEntry>, rows: Table, reprocess: bool, hasStore: bool)
    requires |images| > 0
    ensures var n := |images| - 1;
      var prev := Submitted(images[..n], rows, reprocess, hasStore);
      Submitted(images, rows, reprocess, hasStore) ==
        if Skips(images[n], rows, reprocess, hasStore) then prev else prev + [images[n]]
  {
  }

  /** Images with distinct base names yield records with distinct names. */
  lemma DistinctBasenamesDistinctRecords(subs: seq<ImageEntry>, work: Worker)
    requires KeysByBasename(work)
    requires DistinctBasenames(subs)
    ensures DistinctRecords(Futures(subs, work))
  {
    var futures := Futures(subs, work);
    forall i, j | 0 <= i < |futures| && 0 <= j < |futures| &&
      futures[i].Returned? && futures[i].record.Some? && futures[j].Returned? && futures[j].record.Some? &&
      futures[i].record.value.imagename == futures[j].record.value.imagename
      ensures i == j
    {
      FuturesAt(subs, work, i);
      FuturesAt(subs, work, j);
    }
  }

  /** The table a committed batch leaves: the committed rows with the
      session's merges on top. */
  function AfterBatch(images: seq<ImageEntry>, rows: Table, pending: Table, reprocess: bool, work: Worker, completion: seq<nat>, fails: Measurement -> bool): Table
    requires IsCompletionOrder(completion, |Submitted(images, rows, reprocess, true)|)
  {
    var subs := Submitted(images, rows, reprocess, true);
    rows + MergeAll(pending, Collected(Futures(subs, work), completion), fails)
  }

  /** The image yields a record whose merge goes through, and so should be in
      the store. */
  ghost predicate YieldsRecord(e: ImageEntry, work: Worker, fails: Measurement -> bool)
  {
    var o := work(e);
    o.Returned? && o.record.Some? && !fails(o.record.value)
  }

  /** A record a future yields is in the merged table under its own name. */
  lemma FutureStored(t: Table, futures: seq<Outcome>, order: seq<nat>, fails: Measurement -> bool,
                     i: nat, m: Measurement)
    requires IsCompletionOrder(order, |futures|) && Yields(futures, fails, i, m)
    ensures m.imagename in MergeAll(t, Collected(futures, order), fails)
  {
    assert i in order;
    var k :| 0 <= k < |order| && order[k] == i;
    CollectedHolds(futures, order, k);
    var results := Collected(futures, order);
    var idx :| 0 <= idx < |results| && results[idx] == Some(m);
    assert Merged(results, fails, idx);
    MergeAllKeys(t, results, fails);
    assert m.imagename in MergedNames(results, fails);
  }

  /** After a committed batch, every listed image that yields a record has a
      row under its base name: it was either skipped because the row was
      already there, or its record was merged. */
  lemma BatchStoresYields(images: seq<ImageEntry>, rows: Table, pending: Table, reprocess: bool, work: Worker, completion: seq<nat>, fails: Measurement -> bool, e: ImageEntry)
    requires IsCompletionOrder(completion, |Submitted(images, rows, reprocess, true)|)
    requires KeysByBasename(work)
    requires e in images && YieldsRecord(e, work, fails)
    ensures Basename(e.filename) in AfterBatch(images, rows, pending, reprocess, work, completion, fails)
  {
    var subs := Submitted(images, rows, reprocess, true);
    if !Skips(e, rows, reprocess, true) {
      var futures := Futures(subs, work);
      var m := work(e).record.value;
      SubmittedMembers(images, rows, reprocess, true, e);
      var i :| 0 <= i < |subs| && subs[i] == e;
      FuturesAt(subs, work, i);
      assert Yields(futures, fails, i, m);
      FutureStored(pending, futures, completion, fails, i, m);
    }
  }

  /** With reprocessing on, nothing is skipped. */
  lemma {:induction false} ReprocessSubmitsAll(images: seq<ImageEntry>, rows: Table, hasStore: bool)
    ensures Submitted(images, rows, true, hasStore) == images
    decreases |images|
  {
    if |images| > 0 {
      var n := |images| - 1;
      ReprocessSubmitsAll(images[..n], rows, hasStore);
      assert images == images[..n] + [images[n]];
    }
  }

  /** Without reprocessing, an image whose base name is committed is never
      submitted; so a listing whose every image is committed submits nothing. */
  lemma {:induction false} KnownImagesNotSubmitted(images: seq<ImageEntry>, rows: Table)
    requires forall i :: 0 <= i < |images| ==> Basename(images[i].filename) in rows
    ensures Submitted(images, rows, false, true) == []
    decreases |images|
  {
    if |images| > 0 {
      KnownImagesNotSubmitted(images[..|images| - 1], rows);
    }
  }

  /** Without reprocessing, a second run over a listing whose every image
      yielded a stored record submits nothing and leaves the table as it is. */
  lemma SecondRunIsNoOp(images: seq<ImageEntry>, rows: Table, work: Worker,
                        fails: Measurement -> bool)
    requires forall i :: 0 <= i < |images| ==> Basename(images[i].filename) in rows
    ensures Submitted(images, rows, false, true) == []
    ensures AfterBatch(images, rows, map[], false, work, [], fails) == rows
  {
    KnownImagesNotSubmitted(images, rows);
    assert rows + map[] == rows;
  }

  /** The name a record is stored under is the name the next run's existence
      check asks about: after a committed batch, a later run without
      reprocessing skips every image of it that yielded a record. */
  lemma RecordedImageNotResubmitted(images: seq<ImageEntry>, rows: Table, reprocess: bool, work: Worker, completion: seq<nat>, fails: Measurement -> bool,
                                    e: ImageEntry)
    requires IsCompletionOrder(completion, |Submitted(images, rows, reprocess, true)|)
    requires KeysByBasename(work)
    requires e in images && YieldsRecord(e, work, fails)
    ensures Skips(e, AfterBatch(images, rows, map[], reprocess, work, completion, fails), false, true)
  {
    BatchStoresYields(images, rows, map[], reprocess, work, completion, fails, e);
  }

  /** A submitted image whose record is merged ends up stored with that
      record, replacing any row its name had before, when no two listed
      images share a base name. */
  lemma BatchReplacesRecord(images: seq<ImageEntry>, rows: Table, reprocess: bool, work: Worker, completion: seq<nat>, fails: Measurement -> bool, e: ImageEntry)
    requires KeysByBasename(work)
    requires DistinctBasenames(images)
    requires IsCompletionOrder(completion, |Submitted(images, rows, reprocess, true)|)
    requires e in images && YieldsRecord(e, work, fails) && !Skips(e, rows, reprocess, true)
    ensures var m := work(e).record.value;
      var after := AfterBatch(images, rows, map[], reprocess, work, completion, fails);
      m.imagename == Basename(e.filename) && m.imagename in after && after[m.imagename] == m
  {
    var subs := Submitted(images, rows, reprocess, true);
    var futures := Futures(subs, work);
    var m := work(e).record.value;
    SubmittedMembers(images, rows, reprocess, true, e);
    var i :| 0 <= i < |subs| && subs[i] == e;
    FuturesAt(subs, work, i);
    SubmittedDistinct(images, rows, reprocess, true);
    DistinctBasenamesDistinctRecords(subs, work);
    assert Yields(futures, fails, i, m);
    CollectedMergeAt(map[], futures, completion, fails, i, m);
  }


  // ---------------------------------------------------------------------------
  // The batch

  /** How a call of `findPinHoleInImages` ends: it returns None, or the final
      `commit` raises out of it. */
  datatype BatchEnd = Completed | CommitRaised

  /** The rows the existence check sees: the committed ones, or none without
      a session. */
  function Committed(store: Store?): Table
    reads store
  {
    if store == null then map[] else store.rows
  }

  /** The images a batch over `images` submits, given the store it starts from. */
  function BatchSubmits(images: seq<ImageEntry>, store: Store?, reprocess: bool): seq<ImageEntry>
    reads store
  {
    Submitted(images, Committed(store), reprocess, store != null)
  }

  /**
   * `findPinHoleInImages(imagelist, dbsession, args)`. The pool is a
   * sequential run of the submitted workers in `completion` order; merge
   * errors, which the source logs and swallows, come from `mergeFails`, and
   * `commitFails` stands for the database refusing the commit.
   */
  method FindPinHoleInImages(images: seq<ImageEntry>, store: Store?, reprocess: bool, work: Worker,
                             completion: seq<nat>, mergeFails: Measurement -> bool, commitFails: bool)
    returns (end: BatchEnd)
    requires store != null ==> store.Valid()
    requires IsCompletionOrder(completion, |BatchSubmits(images, store, reprocess)|)
    modifies store
    ensures store != null ==> store.Valid()
    ensures end == CommitRaised <==> store == null || commitFails
    ensures store != null ==>
      var subs := Submitted(images, old(store.rows), reprocess, true);
      var merged := MergeAll(old(store.pending), Collected(Futures(subs, work), completion), mergeFails);
      if commitFails then store.rows == old(store.rows) && store.pending == merged
      else store.rows == old(store.rows) + merged && store.pending == map[]
  {
    var jobs := Submit(images, store, reprocess);
    var futures := RunPool(jobs, work);
    var results := AsCompleted(futures, completion);
    MergeResults(results, store, mergeFails);
    if store == null {
      // `dbsession.merge` and `dbsession.commit` on None raise; the first is
      // swallowed, the second is not.
      return CommitRaised;
    }
    assert jobs == Submitted(images, old(store.rows), reprocess, true);
    var ok := store.Commit(commitFails);
    end := if ok then Completed else CommitRaised;
  }

  /** The submission loop: an image is skipped when reprocessing is off, a
      session is open and its base name is already committed; every other
      image is queued on the pool, in listing order. A future is modelled by
      the image whose job it holds. */
  method Submit(images: seq<ImageEntry>, store: Store?, reprocess: bool) returns (jobs: seq<ImageEntry>)
    ensures jobs == BatchSubmits(images, store, reprocess)
  {
    ghost var rows := Committed(store);
    jobs := [];
    var i := 0;
    while i < |images|
      invariant 0 <= i <= |images|
      invariant jobs == Submitted(images[..i], rows, reprocess, store != null)
    {
      var known := false;
      if !reprocess && store != null {
        known := store.RecordExists(Basename(images[i].filename));
      }
      SubmitStep(images, i, rows, reprocess, store != null);
      if !known {
        jobs := jobs + [images[i]];
      }
      i := i + 1;
    }
    assert images[..i] == images;
  }

  /** `shutdown(wait=True)`: the pool runs every queued job to its end, so
      each future holds its worker's outcome. */
  method RunPool(jobs: seq<ImageEntry>, work: Worker) returns (futures: seq<Outcome>)
    ensures futures == Futures(jobs, work)
  {
    futures := [];
    var k := 0;
    while k < |jobs|
      invariant 0 <= k <= |jobs| && |futures| == k
      invariant forall j :: 0 <= j < k ==> futures[j] == work(jobs[j])
    {
      futures := futures + [work(jobs[k])];
      k := k + 1;
    }
    FuturesOfWork(jobs, futures, work);
  }

  /** One more image in the listing adds it to the submitted images unless
      it is skipped. */
  lemma SubmitStep(images: seq<ImageEntry>, i: nat, rows: Table, reprocess: bool, hasStore: bool)
    requires i < |images|
    ensures Submitted(images[..i + 1], rows, reprocess, hasStore) ==
      var before := Submitted(images[..i], rows, reprocess, hasStore);
      if Skips(images[i], rows, reprocess, hasStore) then before else before + [images[i]]
  {
    assert images[..i + 1][..i] == images[..i];
  }

  /** Futures that hold, one by one, the workers' outcomes on the submitted
      images are the futures of the batch. */
  lemma FuturesOfWork(subs: seq<ImageEntry>, futures: seq<Outcome>, work: Worker)
    requires |futures| == |subs|
    requires forall k :: 0 <= k < |subs| ==> futures[k] == work(subs[k])
    ensures futures == Futures(subs, work)
  {
    forall k | 0 <= k < |subs| ensures futures[k] == Futures(subs, work)[k] {
      FuturesAt(subs, work, k);
    }
  }

  /** `as_completed`: the results of the futures in completion order, with
      the exceptions of failed workers logged and dropped. */
  method AsCompleted(futures: seq<Outcome>, completion: seq<nat>) returns (results: seq<Option<Measurement>>)
    requires forall k :: 0 <= k < |completion| ==> completion[k] < |futures|
    ensures results == Collected(futures, completion)
  {
    results := [];
    var k := 0;
    while k < |completion|
      invariant 0 <= k <= |completion|
      invariant results == Collected(futures, completion[..k])
    {
      var o := futures[completion[k]];
      assert completion[..k + 1][..k] == completion[..k];
      if o.Returned? {
        results := results + [o.record];
      }
      k := k + 1;
    }
    assert completion[..k] == completion;
  }

  /** The merge loop: every result that is not None is merged; an error the
      session raises on one is logged and the loop goes on. */
  method MergeResults(results: seq<Option<Measurement>>, store: Store?, mergeFails: Measurement -> bool)
    requires store != null ==> store.Valid()
    modifies store
    ensures store != null ==> store.Valid() && store.rows == old(store.rows)
    ensures store != null ==> store.pending == MergeAll(old(store.pending), results, mergeFails)
  {
    var j := 0;
    while j < |results|
      invariant 0 <= j <= |results|
      invariant store != null ==> store.Valid() && store.rows == old(store.rows)
      invariant store != null ==> store.pending == MergeAll(old(store.pending), results[..j], mergeFails)
    {
      assert results[..j + 1][..j] == results[..j];
      if results[j].Some? && store != null {
        store.Merge(results[j].value, mergeFails(results[j].value));
      }
      j := j + 1;
    }
    assert results[..j] == results;
  }

  // ---------------------------------------------------------------------------
  // The camera/date loop of `main`

  /** A listing that exists and holds at least one image. */
  predicate HasImages(files: Option<seq<ImageEntry>>) {
    files.Some? && |files.value| > 0
  }

  /** The archive listing for each (camera, date): None when the crawler
      returns None, and every frame rectangular. */
  type Listing = (string, string) -> Option<seq<ImageEntry>>

  /** The (camera, date) pairs of one camera that have images, in date order. */
  function ListedDates(camera: string, dates: seq<string>, listing: Listing): seq<(string, string)>
    decreases |dates|
  {
    if |dates| == 0 then []
    else
      var n := |dates| - 1;
      var prev := ListedDates(camera, dates[..n], listing);
      if HasImages(listing(camera, dates[n])) then prev + [(camera, dates[n])] else prev
  }

  /** The (camera, date) pairs that have images, camera by camera. */
  function Listed(cameras: seq<string>, dates: seq<string>, listing: Listing): seq<(string, string)>
    decreases |cameras|
  {
    if |cameras| == 0 then []
    else
      var n := |cameras| - 1;
      Listed(cameras[..n], dates, listing) + ListedDates(cameras[n], dates, listing)
  }

  /** A camera's pairs are exactly its dates whose listing holds images. */
  lemma {:induction false} ListedDatesMembers(camera: string, dates: seq<string>, listing: Listing, p: (string, string))
    ensures p in ListedDates(camera, dates, listing) <==> p.0 == camera && p.1 in dates && HasImages(listing(p.0, p.1))
    decreases |dates|
  {
    if |dates| > 0 {
      var n := |dates| - 1;
      ListedDatesMembers(camera, dates[..n], listing, p);
      assert dates == dates[..n] + [dates[n]];
    }
  }

  /** The crawl visits exactly the pairs of a listed camera and a listed date
      that hold images. */
  lemma {:induction false} ListedMembers(cameras: seq<string>, dates: seq<string>, listing: Listing, p: (string, string))
    ensures p in Listed(cameras, dates, listing) <==> p.0 in cameras && p.1 in dates && HasImages(listing(p.0, p.1))
    decreases |cameras|
  {
    if |cameras| > 0 {
      var n := |cameras| - 1;
      ListedMembers(cameras[..n], dates, listing, p);
      ListedDatesMembers(cameras[n], dates, listing, p);
      assert cameras == cameras[..n] + [cameras[n]];
    }
  }

  /** The dates seen so far give a prefix of a camera's pairs. */
  lemma {:induction false} ListedDatesPrefix(camera: string, dates: seq<string>, j: nat, listing: Listing)
    requires j <= |dates|
    ensures ListedDates(camera, dates[..j], listing) <= ListedDates(camera, dates, listing)
    decreases |dates|
  {
    if j < |dates| {
      var n := |dates| - 1;
      assert dates[..n][..j] == dates[..j];
      ListedDatesPrefix(camera, dates[..n], j, listing);
    } else {
      assert dates[..j] == dates;
    }
  }

  /** The cameras seen so far give a prefix of all pairs. */
  lemma {:induction false} ListedPrefix(cameras: seq<string>, i: nat, dates: seq<string>, listing: Listing)
    requires i <= |cameras|
    ensures Listed(cameras[..i], dates, listing) <= Listed(cameras, dates, listing)
    decreases |cameras|
  {
    if i < |cameras| {
      var n := |cameras| - 1;
      assert cameras[..n][..i] == cameras[..i];
      ListedPrefix(cameras[..n], i, dates, listing);
    } else {
      assert cameras[..i] == cameras;
    }
  }

  /** Visiting date `j` extends a camera's pairs by that date when its listing
      holds images, and stays a prefix of the camera's pairs. */
  lemma DateStep(camera: string, dates: seq<string>, j: nat, listing: Listing)
    requires j < |dates|
    ensures ListedDates(camera, dates[..j + 1], listing) ==
      ListedDates(camera, dates[..j], listing) +
      (if HasImages(listing(camera, dates[j])) then [(camera, dates[j])] else [])
    ensures ListedDates(camera, dates[..j + 1], listing) <= ListedDates(camera, dates, listing)
  {
    ListedDatesPrefix(camera, dates, j + 1, listing);
    assert dates[..j + 1][..j] == dates[..j];
  }

  /** Crawling camera `i` extends the pairs of the cameras before it by that
      camera's pairs, and stays a prefix of all pairs. */
  lemma CameraStep(cameras: seq<string>, i: nat, dates: seq<string>, listing: Listing)
    requires i < |cameras|
    ensures Listed(cameras[..i + 1], dates, listing) == Listed(cameras[..i], dates, listing) + ListedDates(cameras[i], dates, listing)
    ensures Listed(cameras[..i + 1], dates, listing) <= Listed(cameras, dates, listing)
  {
    ListedPrefix(cameras, i + 1, dates, listing);
    assert cameras[..i + 1][..i] == cameras[..i];
  }

  /** Every image of the listing that yields a record has a row under its
      base name. */
  ghost predicate Stored(images: seq<ImageEntry>, rows: Table, work: Worker,
                         fails: Measurement -> bool)
  {
    forall e {:trigger Basename(e.filename)} :: e in images && YieldsRecord(e, work, fails) ==> Basename(e.filename) in rows
  }

  /** A committed batch stores every record its listing yields. */
  lemma BatchStoresListing(images: seq<ImageEntry>, rows: Table, reprocess: bool, work: Worker,
                           completion: seq<nat>, fails: Measurement -> bool)
    requires IsCompletionOrder(completion, |Submitted(images, rows, reprocess, true)|)
    requires KeysByBasename(work)
    ensures Stored(images, AfterBatch(images, rows, map[], reprocess, work, completion, fails), work, fails)
  {
    forall e | e in images && YieldsRecord(e, work, fails)
      ensures Basename(e.filename) in AfterBatch(images, rows, map[], reprocess, work, completion, fails)
    {
      BatchStoresYields(images, rows, map[], reprocess, work, completion, fails, e);
    }
  }

  /** Every crawled pair has images, and each of them that yields a record
      has a row. */
  ghost predicate CrawlStored(batches: seq<(string, string)>, listing: Listing, rows: Table, work: Worker, fails: Measurement -> bool)
  {
    forall k :: 0 <= k < |batches| ==>
      HasImages(listing(batches[k].0, batches[k].1)) &&
      Stored(listing(batches[k].0, batches[k].1).value, rows, work, fails)
  }

  /** Rows once committed stay, so what was stored stays stored. */
  lemma CrawlStoredGrows(batches: seq<(string, string)>, listing: Listing, rows: Table, rows': Table, work: Worker, fails: Measurement -> bool)
    requires rows.Keys <= rows'.Keys && CrawlStored(batches, listing, rows, work, fails)
    ensures CrawlStored(batches, listing, rows', work, fails)
  {
  }

  /** A crawled pair whose records are stored extends the crawl. */
  lemma CrawlStoredExtend(batches: seq<(string, string)>, p: (string, string), listing: Listing, rows: Table,
                          work: Worker, fails: Measurement -> bool)
    requires CrawlStored(batches, listing, rows, work, fails)
    requires HasImages(listing(p.0, p.1)) && Stored(listing(p.0, p.1).value, rows, work, fails)
    ensures CrawlStored(batches + [p], listing, rows, work, fails)
  {
  }

  /** `schedule(camera, date, n)` is the order in which the pool completes the
      `n` futures of that pair's batch. */
  ghost predicate IsSchedule(schedule: (string, string, nat) -> seq<nat>) {
    forall c, d, n :: IsCompletionOrder(schedule(c, d, n), n)
  }

  /** The committed rows after the batch of pair `p` commits, starting from
      `rows`; a pair without images runs no batch. */
  ghost function BatchRows(p: (string, string), listing: Listing, rows: Table, reprocess: bool, work: Worker, schedule: (string, string, nat) -> seq<nat>,
                           fails: Measurement -> bool): Table
    requires IsSchedule(schedule)
  {
    if HasImages(listing(p.0, p.1)) then
      var files := listing(p.0, p.1).value;
      AfterBatch(files, rows, map[], reprocess, work,
                 schedule(p.0, p.1, |Submitted(files, rows, reprocess, true)|), fails)
    else rows
  }

  /** The same batch as a step of the crawl, from the rows it starts with to
      the rows it commits. */
  ghost function BatchStep(listing: Listing, reprocess: bool, work: Worker,
                           schedule: (string, string, nat) -> seq<nat>, fails: Measurement -> bool):
    ((string, string), Table) -> Table
  {
    (p: (string, string), rows: Table) =>
      if IsSchedule(schedule)
      then BatchRows(p, listing, rows, reprocess, work, schedule, fails)
      else rows
  }

  /** `step` commits what one batch of the crawl commits. The link is used only
      where a batch's rows are already named. */
  ghost predicate IsBatchStep(step: ((string, string), Table) -> Table, listing: Listing, reprocess: bool, work: Worker, schedule: (string, string, nat) -> seq<nat>,
                              fails: Measurement -> bool)
    requires IsSchedule(schedule)
  {
    forall p, rows {:trigger BatchRows(p, listing, rows, reprocess, work, schedule, fails)} ::
      step(p, rows) == BatchRows(p, listing, rows, reprocess, work, schedule, fails)
  }

  /** `BatchStep` is such a step. */
  lemma BatchStepIsBatchStep(listing: Listing, reprocess: bool, work: Worker,
                             schedule: (string, string, nat) -> seq<nat>, fails: Measurement -> bool)
    requires IsSchedule(schedule)
    ensures IsBatchStep(BatchStep(listing, reprocess, work, schedule, fails), listing, reprocess, work,
                        schedule, fails)
  {
  }

  /** The committed rows after the batches of `pairs`, one after another, each
      seeing the commits before it. */
  ghost function Crawl(pairs: seq<(string, string)>, rows: Table, step: ((string, string), Table) -> Table): Table
    decreases |pairs|
  {
    if |pairs| == 0 then rows
    else
      var n := |pairs| - 1;
      step(pairs[n], Crawl(pairs[..n], rows, step))
  }

  /** One more pair runs its batch on the rows the earlier ones left. */
  lemma CrawlStep(pairs: seq<(string, string)>, p: (string, string), rows: Table,
                  step: ((string, string), Table) -> Table)
    ensures Crawl(pairs + [p], rows, step) == step(p, Crawl(pairs, rows, step))
  {
    assert (pairs + [p])[..|pairs|] == pairs;
  }

  /** Crawling `a` and then `b` is crawling `a + b`. */
  lemma {:induction false} CrawlAppend(a: seq<(string, string)>, b: seq<(string, string)>, rows: Table,
                                       step: ((string, string), Table) -> Table)
    ensures Crawl(a + b, rows, step) == Crawl(b, Crawl(a, rows, step), step)
    decreases |b|
  {
    if |b| == 0 {
      assert a + b == a;
    } else {
      var n := |b| - 1;
      CrawlAppend(a, b[..n], rows, step);
      assert a + b == (a + b[..n]) + [b[n]];
      CrawlStep(a + b[..n], b[n], rows, step);
    }
  }

  /** A batch on a pair that holds images keeps every committed row and
      stores every record its listing yields. */
  lemma BatchStepStored(crawled: seq<(string, string)>, p: (string, string), listing: Listing, rows: Table,
                        reprocess: bool, work: Worker, schedule: (string, string, nat) -> seq<nat>,
                        fails: Measurement -> bool, step: ((string, string), Table) -> Table)
    requires KeysByBasename(work)
    requires IsSchedule(schedule)
    requires IsBatchStep(step, listing, reprocess, work, schedule, fails)
    requires CrawlStored(crawled, listing, rows, work, fails) && HasImages(listing(p.0, p.1))
    ensures rows.Keys <= step(p, rows).Keys
    ensures CrawlStored(crawled + [p], listing, step(p, rows), work, fails)
  {
    var files := listing(p.0, p.1).value;
    var completion := schedule(p.0, p.1, |Submitted(files, rows, reprocess, true)|);
    var after := AfterBatch(files, rows, map[], reprocess, work, completion, fails);
    assert step(p, rows) == BatchRows(p, listing, rows, reprocess, work, schedule, fails) == after;
    BatchStoresListing(files, rows, reprocess, work, completion, fails);
    CrawlStoredGrows(crawled, listing, rows, after, work, fails);
    CrawlStoredExtend(crawled, p, listing, after, work, fails);
  }

  /** A crawl over pairs that all hold images keeps every committed row and
      stores every record their listings yield. */
  lemma {:induction false} CrawlRowsStored(pairs: seq<(string, string)>, listing: Listing, rows: Table,
                                           reprocess: bool, work: Worker,
                                           schedule: (string, string, nat) -> seq<nat>, fails: Measurement -> bool,
                                           step: ((string, string), Table) -> Table)
    requires KeysByBasename(work)
    requires IsSchedule(schedule)
    requires IsBatchStep(step, listing, reprocess, work, schedule, fails)
    requires forall k :: 0 <= k < |pairs| ==> HasImages(listing(pairs[k].0, pairs[k].1))
    ensures rows.Keys <= Crawl(pairs, rows, step).Keys
    ensures CrawlStored(pairs, listing, Crawl(pairs, rows, step), work, fails)
    decreases |pairs|
  {
    if |pairs| > 0 {
      var n := |pairs| - 1;
      var init, p := pairs[..n], pairs[n];
      CrawlRowsStored(init, listing, rows, reprocess, work, schedule, fails, step);
      assert HasImages(listing(p.0, p.1));
      BatchStepStored(init, p, listing, Crawl(init, rows, step), reprocess, work, schedule, fails, step);
      CrawlStep(init, p, rows, step);
      assert pairs == init + [p];
    }
  }

  /** After a crawl that completes, every image of every (camera, date) pair
      that holds images has a row whenever its worker returns a record that
      merges, and every row committed before the crawl is still there. */
  lemma CrawlStoresListing(cameras: seq<string>, dates: seq<string>, listing: Listing, rows: Table,
                           reprocess: bool, work: Worker,
                           schedule: (string, string, nat) -> seq<nat>, fails: Measurement -> bool,
                           step: ((string, string), Table) -> Table)
    requires KeysByBasename(work)
    requires IsSchedule(schedule)
    requires IsBatchStep(step, listing, reprocess, work, schedule, fails)
    ensures var pairs := Listed(cameras, dates, listing);
      rows.Keys <= Crawl(pairs, rows, step).Keys && CrawlStored(pairs, listing, Crawl(pairs, rows, step), work, fails)
  {
    var pairs := Listed(cameras, dates, listing);
    forall k | 0 <= k < |pairs| ensures HasImages(listing(pairs[k].0, pairs[k].1)) {
      ListedMembers(cameras, dates, listing, pairs[k]);
    }
    CrawlRowsStored(pairs, listing, rows, reprocess, work, schedule, fails, step);
  }

  /**
   * The loop of `main`: for each camera and each date, fetch the listing and,
   * when it holds images, run a batch on the shared session. An exception
   * from a commit ends the program, so the crawl stops there. `schedule`
   * gives the pool's completion order for each batch and `commitFails` which
   * commits the database refuses.
   */
  method CrawlCameras(cameras: seq<string>, dates: seq<string>, listing: Listing, store: Store, reprocess: bool,
                      work: Worker, schedule: (string, string, nat) -> seq<nat>,
                      mergeFails: Measurement -> bool, commitFails: (string, string) -> bool,
                      ghost step: ((string, string), Table) -> Table)
    returns (batches: seq<(string, string)>, end: BatchEnd)
    requires store.Valid() && store.pending == map[]
    requires IsSchedule(schedule)
    requires IsBatchStep(step, listing, reprocess, work, schedule, mergeFails)
    modifies store
    ensures store.Valid()
    ensures batches <= Listed(cameras, dates, listing)
    ensures end == Completed ==>
      batches == Listed(cameras, dates, listing) && store.pending == map[] &&
      store.rows == Crawl(batches, old(store.rows), step)
    ensures end == CommitRaised ==>
      |batches| > 0 && commitFails(batches[|batches| - 1].0, batches[|batches| - 1].1) &&
      store.rows == Crawl(batches[..|batches| - 1], old(store.rows), step)
  {
    ghost var rows0 := store.rows;
    batches := [];
    var i := 0;
    while i < |cameras|
      invariant 0 <= i <= |cameras|
      invariant store.Valid() && store.pending == map[]
      invariant batches == Listed(cameras[..i], dates, listing)
      invariant store.rows == Crawl(batches, rows0, step)
    {
      var ended;
      batches, ended := CrawlCamera(cameras, i, dates, listing, store, reprocess, work, schedule,
                                    mergeFails, commitFails, step, rows0, batches);
      if ended == CommitRaised {
        return batches, CommitRaised;
      }
      i := i + 1;
    }
    assert cameras[..i] == cameras;
    end := Completed;
  }

  /** One pass of the outer loop of `main`: the dates of camera `i`, after the
      batches `before` of the cameras ahead of it. */
  method CrawlCamera(cameras: seq<string>, i: nat, dates: seq<string>, listing: Listing, store: Store,
                     reprocess: bool, work: Worker, schedule: (string, string, nat) -> seq<nat>,
                     mergeFails: Measurement -> bool, commitFails: (string, string) -> bool,
                     ghost step: ((string, string), Table) -> Table, ghost rows0: Table,
                     before: seq<(string, string)>)
    returns (batches: seq<(string, string)>, end: BatchEnd)
    requires i < |cameras|
    requires store.Valid() && store.pending == map[]
    requires IsSchedule(schedule)
    requires IsBatchStep(step, listing, reprocess, work, schedule, mergeFails)
    requires before == Listed(cameras[..i], dates, listing) && store.rows == Crawl(before, rows0, step)
    modifies store
    ensures store.Valid()
    ensures batches <= Listed(cameras, dates, listing)
    ensures end == Completed ==>
      batches == Listed(cameras[..i + 1], dates, listing) && store.pending == map[] &&
      store.rows == Crawl(batches, rows0, step)
    ensures end == CommitRaised ==>
      |batches| > 0 && commitFails(batches[|batches| - 1].0, batches[|batches| - 1].1) &&
      store.rows == Crawl(batches[..|batches| - 1], rows0, step)
  {
    var more;
    end, more := CrawlDates(cameras[i], dates, listing, store, reprocess, work, schedule,
                            mergeFails, commitFails, step);
    batches := before + more;
    CameraStep(cameras, i, dates, listing);
    if end == CommitRaised {
      var m := |more| - 1;
      assert batches[..|batches| - 1] == before + more[..m];
      CrawlAppend(before, more[..m], rows0, step);
    } else {
      CrawlAppend(before, more, rows0, step);
    }
  }

  /** The inner loop of `main` over the dates of one camera. */
  method CrawlDates(camera: string, dates: seq<string>, listing: Listing, store: Store, reprocess: bool,
                    work: Worker, schedule: (string, string, nat) -> seq<nat>,
                    mergeFails: Measurement -> bool, commitFails: (string, string) -> bool,
                    ghost step: ((string, string), Table) -> Table)
    returns (end: BatchEnd, batches: seq<(string, string)>)
    requires store.Valid() && store.pending == map[]
    requires IsSchedule(schedule)
    requires IsBatchStep(step, listing, reprocess, work, schedule, mergeFails)
    modifies store
    ensures store.Valid()
    ensures batches <= ListedDates(camera, dates, listing)
    ensures end == Completed ==>
      batches == ListedDates(camera, dates, listing) && store.pending == map[] &&
      store.rows == Crawl(batches, old(store.rows), step)
    ensures end == CommitRaised ==>
      |batches| > 0 && commitFails(batches[|batches| - 1].0, batches[|batches| - 1].1) &&
      store.rows == Crawl(batches[..|batches| - 1], old(store.rows), step)
  {
    ghost var rows0 := store.rows;
    batches := [];
    var j := 0;
    while j < |dates|
      invariant 0 <= j <= |dates|
      invariant store.Valid() && store.pending == map[]
      invariant batches == ListedDates(camera, dates[..j], listing)
      invariant store.rows == Crawl(batches, rows0, step)
    {
      var ended;
      batches, ended := CrawlDate(camera, dates, j, listing, store, reprocess, work, schedule, mergeFails,
                                  commitFails, step, rows0, batches);
      if ended == CommitRaised {
        return CommitRaised, batches;
      }
      j := j + 1;
    }
    assert dates[..j] == dates;
    end := Completed;
  }

  /** One pass of the inner loop of `main`: date `j` of the camera, after the
      batches `before` of the dates ahead of it. A date without images runs no
      batch. */
  method CrawlDate(camera: string, dates: seq<string>, j: nat, listing: Listing, store: Store, reprocess: bool,
                   work: Worker, schedule: (string, string, nat) -> seq<nat>,
                   mergeFails: Measurement -> bool, commitFails: (string, string) -> bool,
                   ghost step: ((string, string), Table) -> Table, ghost rows0: Table,
                   before: seq<(string, string)>)
    returns (batches: seq<(string, string)>, end: BatchEnd)
    requires j < |dates|
    requires store.Valid() && store.pending == map[]
    requires IsSchedule(schedule)
    requires IsBatchStep(step, listing, reprocess, work, schedule, mergeFails)
    requires before == ListedDates(camera, dates[..j], listing) && store.rows == Crawl(before, rows0, step)
    modifies store
    ensures store.Valid()
    ensures batches <= ListedDates(camera, dates, listing)
    ensures end == Completed ==>
      batches == ListedDates(camera, dates[..j + 1], listing) && store.pending == map[] &&
      store.rows == Crawl(batches, rows0, step)
    ensures end == CommitRaised ==>
      |batches| > 0 && commitFails(batches[|batches| - 1].0, batches[|batches| - 1].1) &&
      store.rows == Crawl(batches[..|batches| - 1], rows0, step)
  {
    DateStep(camera, dates, j, listing);
    var date := dates[j];
    var files := listing(camera, date);
    if files.Some? && |files.value| > 0 {
      end := RunBatch(camera, date, listing, store, reprocess, work, schedule, mergeFails,
                      commitFails(camera, date), step);
      batches := before + [(camera, date)];
      assert batches[..|batches| - 1] == before;
      CrawlStep(before, (camera, date), rows0, step);
    } else {
      batches, end := before, Completed;
    }
  }

  /** One batch of the crawl, on the listing of one (camera, date) pair. */
  method RunBatch(camera: string, date: string, listing: Listing, store: Store, reprocess: bool, work: Worker, schedule: (string, string, nat) -> seq<nat>, mergeFails: Measurement -> bool,
                  commitFails: bool, ghost step: ((string, string), Table) -> Table)
    returns (end: BatchEnd)
    requires store.Valid() && store.pending == map[]
    requires IsSchedule(schedule) && HasImages(listing(camera, date))
    requires IsBatchStep(step, listing, reprocess, work, schedule, mergeFails)
    modifies store
    ensures store.Valid()
    ensures end == CommitRaised <==> commitFails
    ensures end == Completed ==>
      store.pending == map[] &&
      store.rows == step((camera, date), old(store.rows))
    ensures end == CommitRaised ==> store.rows == old(store.rows)
  {
    var files := listing(camera, date).value;
    ghost var rows0 := store.rows;
    var n := |BatchSubmits(files, store, reprocess)|;
    var completion := schedule(camera, date, n);
    end := FindPinHoleInImages(files, store, reprocess, work, completion, mergeFails, commitFails);
    if end == Completed {
      assert store.rows == AfterBatch(files, rows0, map[], reprocess, work, completion, mergeFails);
      assert store.rows == BatchRows((camera, date), listing, rows0, reprocess, work, schedule, mergeFails);
    }
  }
}
