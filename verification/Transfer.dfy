/** Cutting a file into chunks, and putting it together again from writes that land in any order. */
module Chunking {
  import opened Bytes
  import opened Merkle
  import opened Words

  function Offset(i: nat, chunkSize: nat): nat {
    i * chunkSize
  }

  lemma OffsetOrder(i: nat, j: nat, chunkSize: nat)
    requires i < j
    ensures Offset(i, chunkSize) + chunkSize == Offset(i + 1, chunkSize) <= Offset(j, chunkSize)
  {
    assert (j - i - 1) * chunkSize >= 0;
    assert j * chunkSize == i * chunkSize + chunkSize + (j - i - 1) * chunkSize;
  }

  /** The uint64 ceiling division both the uploader and the chain record use. */
  function TotalChunks(contentLen: nat, chunkSize: nat): nat
    requires chunkSize > 0
  {
    ((contentLen + chunkSize - 1) % TWO64) / chunkSize
  }

  /** Without wrap-around the count covers the content and no chunk is empty. */
  lemma CountCovers(contentLen: nat, chunkSize: nat)
    requires chunkSize > 0 && contentLen + chunkSize - 1 < TWO64
    ensures var n := TotalChunks(contentLen, chunkSize);
            && contentLen <= Offset(n, chunkSize)
            && (n > 0 ==> Offset(n - 1, chunkSize) < contentLen)
  {
    var sum := contentLen + chunkSize - 1;
    var n := sum / chunkSize;
    assert sum == chunkSize * n + sum % chunkSize;
    assert chunkSize * n == Offset(n, chunkSize);
    if n > 0 { OffsetOrder(n - 1, n, chunkSize); }
  }

  /** With wrap-around the quotient is zero: no chunk at all. */
  lemma WrapLosesEverything(contentLen: nat, chunkSize: nat)
    requires chunkSize > 0 && contentLen < TWO64 && TWO64 <= contentLen + chunkSize - 1 < 2 * TWO64
    ensures TotalChunks(contentLen, chunkSize) == 0
  {
    var rest := contentLen + chunkSize - 1 - TWO64;
    assert (contentLen + chunkSize - 1) % TWO64 == rest;
    assert 0 <= rest < chunkSize;
  }

  function Min(a: nat, b: nat): nat {
    if a < b then a else b
  }

  /** The bytes from `i * chunkSize` to the next boundary or the end. */
  function ChunkAt(file: Bytes, chunkSize: nat, i: nat): Bytes
    requires Offset(i, chunkSize) <= |file|
  {
    file[Offset(i, chunkSize)..Min(Offset(i, chunkSize) + chunkSize, |file|)]
  }

  function Flatten(chunks: seq<Bytes>): Bytes {
    if chunks == [] then [] else Flatten(chunks[..|chunks| - 1]) + chunks[|chunks| - 1]
  }

  /** Chunk `i` of `n`: in its place, not empty, and full unless it is the last. */
  ghost predicate IsChunk(file: Bytes, chunkSize: nat, n: nat, i: nat, chunk: Bytes) {
    && Offset(i, chunkSize) < |file| && chunk == ChunkAt(file, chunkSize, i)
    && 0 < |chunk| <= chunkSize && (i + 1 < n ==> |chunk| == chunkSize)
  }

  /** `chunks` is the file in pieces, in order and nothing lost. */
  ghost predicate Partitions(file: Bytes, chunkSize: nat, chunks: seq<Bytes>) {
    && Flatten(chunks) == file
    && forall i :: 0 <= i < |chunks| ==> IsChunk(file, chunkSize, |chunks|, i, chunks[i])
  }

  lemma NextChunk(file: Bytes, chunkSize: nat, n: nat, i: nat)
    requires chunkSize > 0 && i < n && Offset(n - 1, chunkSize) < |file| <= Offset(n, chunkSize)
    ensures Offset(i, chunkSize) < |file|
    ensures IsChunk(file, chunkSize, n, i, ChunkAt(file, chunkSize, i))
    ensures file[..Offset(i, chunkSize)] + ChunkAt(file, chunkSize, i) == file[..Min(Offset(i + 1, chunkSize), |file|)]
  {
    OffsetOrder(i, i + 1, chunkSize);
    if i < n - 1 { OffsetOrder(i, n - 1, chunkSize); }
  }

  /** The chunk loop of the uploader. It partitions the file exactly when the rounded-up length fits in 64 bits. */
  method SplitFile(fileData: Bytes, chunkSize: nat) returns (chunks: seq<Bytes>)
    requires 0 < chunkSize < TWO64 && |fileData| < TWO64
    ensures |chunks| == TotalChunks(|fileData|, chunkSize)
    ensures Partitions(fileData, chunkSize, chunks) <==> |fileData| + chunkSize - 1 < TWO64
  {
    var contentLen := |fileData|;
    var totalChunks := TotalChunks(contentLen, chunkSize);
    chunks := [];
    if contentLen + chunkSize - 1 >= TWO64 {
      WrapLosesEverything(contentLen, chunkSize);
    } else {
      CountCovers(contentLen, chunkSize);
    }
    for i := 0 to totalChunks
      invariant |chunks| == i
      invariant Flatten(chunks) == fileData[..Min(Offset(i, chunkSize), contentLen)]
      invariant forall j :: 0 <= j < i ==> IsChunk(fileData, chunkSize, totalChunks, j, chunks[j])
    {
      NextChunk(fileData, chunkSize, totalChunks, i);
      var start := i * chunkSize;
      var end := start + chunkSize;
      if end > contentLen {
        end := contentLen;
      }
      var chunkData := fileData[start..end];
      assert (chunks + [chunkData])[..i] == chunks;
      chunks := chunks + [chunkData];
    }
    assert fileData[..contentLen] == fileData;
  }

  lemma {:induction false} ChunksReach(file: Bytes, chunkSize: nat, chunks: seq<Bytes>, n: nat)
    requires Partitions(file, chunkSize, chunks) && n <= |chunks|
    ensures |Flatten(chunks[..n])| <= Offset(n, chunkSize)
  {
    if n == 0 {
      assert chunks[..n] == [];
    } else {
      ChunksReach(file, chunkSize, chunks, n - 1);
      OffsetOrder(n - 1, n, chunkSize);
      assert chunks[..n][..n - 1] == chunks[..n - 1];
      assert IsChunk(file, chunkSize, |chunks|, n - 1, chunks[n - 1]);
    }
  }

  /** The length and the chunk size fix how many chunks there are. */
  lemma SameCount(f: Bytes, g: Bytes, chunkSize: nat, c: seq<Bytes>, d: seq<Bytes>)
    requires |f| == |g| && Partitions(f, chunkSize, c) && Partitions(g, chunkSize, d)
    ensures |c| <= |d|
  {
    hide Offset;
    ChunksReach(g, chunkSize, d, |d|);
    assert d[..|d|] == d;
    forall i | 0 <= i < |c| ensures Offset(i, chunkSize) < |f| {
      assert IsChunk(f, chunkSize, |c|, i, c[i]);
    }
  }

  /** Length, chunk size and Merkle root together determine a file, unless hashing the two files holds a collision. */
  lemma RootBindsFile(hash: Bytes -> Digest, f: Bytes, g: Bytes, chunkSize: nat,
                      c: seq<Bytes>, d: seq<Bytes>, cl: seq<Digest>, dl: seq<Digest>)
    requires |f| == |g| && Partitions(f, chunkSize, c) && Partitions(g, chunkSize, d)
    requires ArePaddedLeaves(hash, c, cl) && ArePaddedLeaves(hash, d, dl)
    requires TreeRoot(hash, cl) == TreeRoot(hash, dl)
    ensures f == g || Collision(hash, ChunkInputs(hash, c), ChunkInputs(hash, d))
  {
    SameCount(f, g, chunkSize, c, d);
    SameCount(g, f, chunkSize, d, c);
    RootBindsChunks(hash, c, d, cl, dl);
  }
}

/** The downloader: one goroutine a chunk, each writing at its own offset and then bumping a shared counter. */
module Download {
  import opened Bytes
  import opened Chunking

  /** Byte `p` of a file that reads as zeros past its end. */
  function ByteAt(data: Bytes, p: nat): Byte {
    if p < |data| then data[p] else 0
  }

  /** What `Truncate` leaves: the asked length, each byte kept, and zeros where there was none. */
  function Truncated(data: Bytes, size: nat): (r: Bytes)
    ensures |r| == size && forall p :: 0 <= p < size ==> r[p] == ByteAt(data, p)
  {
    seq(size, p requires 0 <= p => ByteAt(data, p))
  }

  /** What `WriteAt` leaves; a write past the end grows the file over a gap of zeros, and an empty one does nothing. */
  function Overwritten(data: Bytes, b: Bytes, off: nat): (r: Bytes)
    ensures |r| == if b != [] && off + |b| > |data| then off + |b| else |data|
    ensures forall p :: 0 <= p < |r| ==> r[p] == if off <= p < off + |b| then b[p - off] else ByteAt(data, p)
  {
    seq(if b != [] && off + |b| > |data| then off + |b| else |data|,
        p requires 0 <= p => if off <= p < off + |b| then b[p - off] else ByteAt(data, p))
  }

  /** The output file, changed in place. */
  class OutFile {
    var data: Bytes

    /** The file is opened without truncation, so it may hold anything. */
    constructor Open(before: Bytes)
      ensures data == before
    {
      data := before;
    }

    method Truncate(size: nat)
      modifies this
      ensures |data| == size && forall p :: 0 <= p < size ==> data[p] == ByteAt(old(data), p)
    {
      if size <= |data| {
        data := data[..size];
      } else {
        data := data + seq(size - |data|, _ => 0);
      }
    }

    method WriteAt(b: Bytes, off: nat)
      modifies this
      ensures data == Overwritten(old(data), b, off)
    {
      if |b| == 0 { return; }
      if off > |data| {
        data := data + seq(off - |data|, _ => 0);
      }
      var tail := if off + |b| < |data| then data[off + |b|..] else [];
      data := data[..off] + b + tail;
    }
  }

  // ----- Every interleaving of the workers -----

  datatype Phase = Fetching | Written | Counted | GaveUp

  /** `counted` is the counter `downloadedCount`. */
  datatype State = State(data: Bytes, phase: map<nat, Phase>, counted: nat)

  /** One worker's next action: its write succeeds, its fetch fails, its write fails part way, or it counts itself. */
  datatype Step = Write(i: nat) | FetchFails(i: nat) | WriteFails(i: nat, upTo: nat) | Count(i: nat)

  function PhaseOf(s: State, i: nat): Phase {
    if i in s.phase then s.phase[i] else Fetching
  }

  /** The chain's record of the file, what each server answers for each chunk, and what the output file held before. */
  datatype Job = Job(contentLen: nat, chunkSize: nat, answers: seq<Bytes>, before: Bytes)

  function Init(job: Job): State {
    State(Truncated(job.before, job.contentLen), map[], 0)
  }

  function Put(job: Job, s: State, i: nat, b: Bytes, phase: Phase): State {
    s.(data := Overwritten(s.data, b, Offset(i, job.chunkSize)), phase := s.phase[i := phase])
  }

  /** A step that is not enabled leaves the state alone, so every sequence of steps is a run. */
  function Next(job: Job, s: State, step: Step): State {
    var i := step.i;
    if i >= |job.answers| then s
    else
      match step
      case Write(_) => if PhaseOf(s, i).Fetching? then Put(job, s, i, job.answers[i], Written) else s
      case FetchFails(_) => if PhaseOf(s, i).Fetching? then s.(phase := s.phase[i := GaveUp]) else s
      case WriteFails(_, upTo) =>
        if PhaseOf(s, i).Fetching? && upTo < |job.answers[i]| then Put(job, s, i, job.answers[i][..upTo], GaveUp) else s
      case Count(_) =>
        if PhaseOf(s, i).Written? then s.(phase := s.phase[i := Counted], counted := s.counted + 1) else s
  }

  function Run(job: Job, steps: seq<Step>): State {
    if steps == [] then Init(job) else Next(job, Run(job, steps[..|steps| - 1]), steps[|steps| - 1])
  }

  // ----- What every run keeps, whatever the servers answer -----

  ghost function CountedSet(s: State): set<nat> {
    set i | i in s.phase && s.phase[i].Counted?
  }

  /** The counter counts the workers that reached their last step. */
  ghost predicate CountInv(job: Job, s: State) {
    && s.counted == |CountedSet(s)|
    && forall i :: i in s.phase ==> i < |job.answers|
  }

  /** Worker `i` has written its whole answer. */
  predicate Landed(s: State, i: nat) {
    PhaseOf(s, i).Written? || PhaseOf(s, i).Counted?
  }

  /** Answer `i` has a byte for position `p`. */
  predicate Covers(job: Job, i: nat, p: nat) {
    i < |job.answers| && Offset(i, job.chunkSize) <= p < Offset(i, job.chunkSize) + |job.answers[i]|
  }

  ghost predicate Covered(job: Job, p: nat) {
    exists i: nat :: Covers(job, i, p)
  }

  /** Some answer has this byte for position `p`. */
  ghost predicate Answered(job: Job, p: nat, byte: Byte) {
    exists i: nat :: Covers(job, i, p) && byte == job.answers[i][p - Offset(i, job.chunkSize)]
  }

  /** What position `p` held before any write. */
  function Base(job: Job, p: nat): Byte {
    ByteAt(Truncated(job.before, job.contentLen), p)
  }

  /** A byte is an answer's, or is as it was before and no answer for it has landed. */
  ghost predicate ByteInv(job: Job, s: State, p: nat)
    requires p < |s.data|
  {
    || Answered(job, p, s.data[p])
    || (s.data[p] == Base(job, p) && forall i :: Covers(job, i, p) ==> !Landed(s, i))
  }

  /** Answer `i` has bytes, and goes as far as `end`. */
  predicate Reaches(job: Job, i: nat, end: nat) {
    i < |job.answers| && job.answers[i] != [] && end <= Offset(i, job.chunkSize) + |job.answers[i]|
  }

  /** The file is never shorter than recorded, holds every landed answer, and is longer only for an answer's sake. */
  ghost predicate LengthInv(job: Job, s: State) {
    && job.contentLen <= |s.data|
    && (forall i: nat, p: nat :: Covers(job, i, p) && Landed(s, i) ==> p < |s.data|)
    && (|s.data| > job.contentLen ==> exists i: nat :: Reaches(job, i, |s.data|))
  }

  ghost predicate DataInv(job: Job, s: State) {
    LengthInv(job, s) && forall p :: 0 <= p < |s.data| ==> ByteInv(job, s, p)
  }

  lemma NextKeepsCount(job: Job, s: State, step: Step)
    requires CountInv(job, s)
    ensures CountInv(job, Next(job, s, step))
  {
    var i, t := step.i, Next(job, s, step);
    if step.Count? && t != s {
      assert CountedSet(t) == CountedSet(s) + {i} && i !in CountedSet(s);
    } else {
      assert CountedSet(t) == CountedSet(s);
    }
  }

  /** Writing an answer, or the start of one, keeps the length right. */
  lemma PutKeepsLength(job: Job, s: State, i: nat, b: Bytes, phase: Phase)
    requires i < |job.answers| && b <= job.answers[i] && (phase == GaveUp || b == job.answers[i]) && LengthInv(job, s)
    ensures LengthInv(job, Put(job, s, i, b, phase))
  {
    hide Offset;
    var t := Put(job, s, i, b, phase);
    assert |t.data| > |s.data| ==> Reaches(job, i, |t.data|);
    forall j: nat, p: nat | Covers(job, j, p) && Landed(t, j) ensures p < |t.data| {
      assert j == i || Landed(s, j);
    }
  }

  /** And leaves every byte an answer's, or as it was. */
  lemma PutKeepsByte(job: Job, s: State, i: nat, b: Bytes, phase: Phase, p: nat)
    requires i < |job.answers| && b <= job.answers[i] && (phase == GaveUp || b == job.answers[i]) && DataInv(job, s)
    requires p < |Put(job, s, i, b, phase).data|
    ensures ByteInv(job, Put(job, s, i, b, phase), p)
  {
    hide Offset;
    var t, off := Put(job, s, i, b, phase), Offset(i, job.chunkSize);
    if off <= p < off + |b| {
      assert Covers(job, i, p) && t.data[p] == job.answers[i][p - off];
    } else {
      assert t.data[p] == ByteAt(s.data, p);
      if p < |s.data| { assert ByteInv(job, s, p); }
      forall j: nat | Covers(job, j, p) && Landed(t, j) ensures Landed(s, j) && p < |s.data| {}
    }
  }

  lemma SameLanded(job: Job, s: State, t: State)
    requires DataInv(job, s) && t.data == s.data && forall i: nat :: Landed(s, i) == Landed(t, i)
    ensures DataInv(job, t)
  {
    hide Offset;
    forall p | 0 <= p < |t.data| ensures ByteInv(job, t, p) { assert ByteInv(job, s, p); }
  }

  lemma NextKeepsData(job: Job, s: State, step: Step)
    requires DataInv(job, s)
    ensures DataInv(job, Next(job, s, step))
  {
    hide Offset, Put, ByteInv, LengthInv;
    var i, t := step.i, Next(job, s, step);
    if t != s {
      match step
      case Write(_) =>
        PutKeepsLength(job, s, i, job.answers[i], Written);
        forall p | 0 <= p < |t.data| ensures ByteInv(job, t, p) { PutKeepsByte(job, s, i, job.answers[i], Written, p); }
      case WriteFails(_, upTo) =>
        var b := job.answers[i][..upTo];
        PutKeepsLength(job, s, i, b, GaveUp);
        forall p | 0 <= p < |t.data| ensures ByteInv(job, t, p) { PutKeepsByte(job, s, i, b, GaveUp, p); }
      case FetchFails(_) => SameLanded(job, s, t);
      case Count(_) => SameLanded(job, s, t);
    }
  }

  lemma {:induction false} RunKeepsInv(job: Job, steps: seq<Step>)
    ensures CountInv(job, Run(job, steps)) && DataInv(job, Run(job, steps))
  {
    if steps == [] {
      assert CountedSet(Init(job)) == {};
    } else {
      RunKeepsInv(job, steps[..|steps| - 1]);
      NextKeepsCount(job, Run(job, steps[..|steps| - 1]), steps[|steps| - 1]);
      NextKeepsData(job, Run(job, steps[..|steps| - 1]), steps[|steps| - 1]);
    }
  }

  lemma {:induction false} FullSubset(a: set<nat>, n: nat)
    requires forall i :: i in a ==> i < n
    ensures |a| <= n
    ensures |a| == n ==> forall i :: 0 <= i < n ==> i in a
  {
    if n > 0 {
      FullSubset(a - {n - 1}, n - 1);
    } else {
      assert a == {};
    }
  }

  /** The run counted every chunk: what the downloader checks before it reports success. */
  predicate Completed(job: Job, steps: seq<Step>) {
    Run(job, steps).counted == |job.answers|
  }

  /**
   * Every byte accounted for, whatever the servers answered and in whatever order it was written: a full count leaves
   * at each position a byte some answer has for it, or, where no answer has one, what was there before.
   */
  lemma FullCountBytes(job: Job, steps: seq<Step>, p: nat)
    requires Completed(job, steps) && p < |Run(job, steps).data|
    ensures var byte := Run(job, steps).data[p];
            if Covered(job, p) then Answered(job, p, byte) else byte == Base(job, p)
  {
    hide Offset;
    var s := Run(job, steps);
    RunKeepsInv(job, steps);
    FullSubset(CountedSet(s), |job.answers|);
    assert ByteInv(job, s, p);
    forall i: nat | Covers(job, i, p) ensures Landed(s, i) {
      assert i in CountedSet(s);
    }
  }

  // ----- When the download is right -----

  /** Answer `i` has no byte that the file does not have where it lands. */
  ghost predicate Fits(job: Job, file: Bytes, i: nat)
    requires i < |job.answers|
  {
    forall p: nat :: Covers(job, i, p) ==> p < |file| && job.answers[i][p - Offset(i, job.chunkSize)] == file[p]
  }

  /** Every position that no answer has a byte for held the right one already. */
  ghost predicate GapsRight(job: Job, file: Bytes) {
    forall p :: 0 <= p < |file| && !Covered(job, p) ==> Base(job, p) == file[p]
  }

  ghost predicate Rebuilds(job: Job, file: Bytes, steps: seq<Step>) {
    Completed(job, steps) ==> Run(job, steps).data == file
  }

  lemma FittingAnswersRebuild(job: Job, file: Bytes, steps: seq<Step>)
    requires |file| == job.contentLen && GapsRight(job, file)
    requires forall i :: 0 <= i < |job.answers| ==> Fits(job, file, i)
    ensures Rebuilds(job, file, steps)
  {
    hide Offset;
    if Completed(job, steps) {
      var data := Run(job, steps).data;
      RunKeepsInv(job, steps);
      forall i: nat | Reaches(job, i, |data|) ensures |data| <= |file| {
        assert Fits(job, file, i) && Covers(job, i, Offset(i, job.chunkSize) + |job.answers[i]| - 1);
      }
      forall p | 0 <= p < |file| ensures data[p] == file[p] {
        FullCountBytes(job, steps, p);
        if i: nat :| Covers(job, i, p) && data[p] == job.answers[i][p - Offset(i, job.chunkSize)] {
          assert Fits(job, file, i);
        }
      }
    }
  }

  // ----- A run that writes a chosen answer last -----

  /** The writes of the first `n` workers but one. */
  function Others(n: nat, last: nat): seq<Step> {
    if n == 0 then [] else Others(n - 1, last) + (if n - 1 == last then [] else [Write(n - 1)])
  }

  function Counts(n: nat): seq<Step> {
    if n == 0 then [] else Counts(n - 1) + [Count(n - 1)]
  }

  lemma RunAppend(job: Job, steps: seq<Step>, step: Step)
    ensures Run(job, steps + [step]) == Next(job, Run(job, steps), step)
  {
    assert (steps + [step])[..|steps|] == steps;
  }

  lemma WriteMoves(job: Job, s: State, n: nat)
    requires n < |job.answers| && PhaseOf(s, n).Fetching?
    ensures var t := Next(job, s, Write(n));
            && t.counted == s.counted && t.data == Overwritten(s.data, job.answers[n], Offset(n, job.chunkSize))
            && forall i: nat :: PhaseOf(t, i) == if i == n then Written else PhaseOf(s, i)
  {
    hide Overwritten, Offset;
  }

  lemma CountMoves(job: Job, s: State, n: nat)
    requires n < |job.answers| && PhaseOf(s, n).Written?
    ensures var t := Next(job, s, Count(n));
            && t.counted == s.counted + 1 && t.data == s.data
            && forall i: nat :: PhaseOf(t, i) == if i == n then Counted else PhaseOf(s, i)
  {
    hide Overwritten, Offset;
  }

  /** After `n` workers have written, but for one. */
  ghost predicate WrittenBut(s: State, n: nat, last: nat) {
    s.counted == 0 && forall i: nat :: PhaseOf(s, i) == if i < n && i != last then Written else Fetching
  }

  lemma {:induction false} OthersWritten(job: Job, n: nat, last: nat)
    requires n <= |job.answers|
    ensures WrittenBut(Run(job, Others(n, last)), n, last)
  {
    if n > 0 {
      OthersWritten(job, n - 1, last);
      if n - 1 == last {
        assert Others(n, last) == Others(n - 1, last);
      } else {
        RunAppend(job, Others(n - 1, last), Write(n - 1));
        WriteMoves(job, Run(job, Others(n - 1, last)), n - 1);
        hide Next, Run, PhaseOf;
      }
    }
  }

  /** After all have written and the first `n` have counted themselves. */
  ghost predicate CountedUpTo(job: Job, s: State, n: nat) {
    s.counted == n && forall i: nat :: i < |job.answers| ==> PhaseOf(s, i) == if i < n then Counted else Written
  }

  lemma {:induction false} AllCounted(job: Job, steps: seq<Step>, n: nat)
    requires n <= |job.answers| && CountedUpTo(job, Run(job, steps), 0)
    ensures CountedUpTo(job, Run(job, steps + Counts(n)), n)
    ensures Run(job, steps + Counts(n)).data == Run(job, steps).data
  {
    if n == 0 {
      assert steps + Counts(0) == steps;
    } else {
      AllCounted(job, steps, n - 1);
      RunAppend(job, steps + Counts(n - 1), Count(n - 1));
      CountMoves(job, Run(job, steps + Counts(n - 1)), n - 1);
      assert steps + Counts(n) == (steps + Counts(n - 1)) + [Count(n - 1)];
      hide Next, Run, PhaseOf;
    }
  }

  /** There is a completed run in which answer `last` is written last, so that it is there at the end. */
  lemma WrittenLast(job: Job, last: nat) returns (steps: seq<Step>)
    requires last < |job.answers|
    ensures Completed(job, steps)
    ensures forall p: nat :: Covers(job, last, p) ==>
              var data := Run(job, steps).data;
              p < |data| && data[p] == job.answers[last][p - Offset(last, job.chunkSize)]
  {
    hide Offset, Next, Run, PhaseOf;
    var n := |job.answers|;
    var others := Others(n, last);
    OthersWritten(job, n, last);
    RunAppend(job, others, Write(last));
    WriteMoves(job, Run(job, others), last);
    AllCounted(job, others + [Write(last)], n);
    steps := others + [Write(last)] + Counts(n);
  }

  lemma CompletedRun(job: Job) returns (steps: seq<Step>)
    ensures Completed(job, steps)
  {
    if job.answers == [] {
      steps := [];
    } else {
      steps := WrittenLast(job, 0);
    }
  }

  /**
   * The downloader checks neither sizes nor contents. Every completed run rebuilds the file, in every order of the
   * writes, exactly when each answer agrees with the file wherever it lands and what no answer covers was right before.
   */
  lemma RebuildsIff(job: Job, file: Bytes)
    requires |file| == job.contentLen
    ensures (forall steps :: Rebuilds(job, file, steps))
       <==> GapsRight(job, file) && forall i :: 0 <= i < |job.answers| ==> Fits(job, file, i)
  {
    hide Offset;
    if forall steps :: Rebuilds(job, file, steps) {
      forall i | 0 <= i < |job.answers| ensures Fits(job, file, i) {
        var steps := WrittenLast(job, i);
        assert Rebuilds(job, file, steps);
      }
      var steps := CompletedRun(job);
      assert Rebuilds(job, file, steps);
      forall p | 0 <= p < |file| && !Covered(job, p) ensures Base(job, p) == file[p] {
        FullCountBytes(job, steps, p);
      }
    } else if GapsRight(job, file) && forall i :: 0 <= i < |job.answers| ==> Fits(job, file, i) {
      forall steps ensures Rebuilds(job, file, steps) { FittingAnswersRebuild(job, file, steps); }
    }
  }

  /** A wrong answer can go unnoticed: the empty one, when the output file held the right bytes already. */
  lemma StaleFileHidesEmptyAnswer(file: Bytes, steps: seq<Step>)
    requires file != []
    ensures Rebuilds(Job(|file|, |file|, [[]], file), file, steps) && Partitions(file, |file|, [file])
  {
    var job := Job(|file|, |file|, [[]], file);
    FittingAnswersRebuild(job, file, steps);
    assert [file][..0] == [] && Flatten([file]) == [] + file;
    assert file[..|file|] == file;
  }

  // ----- Answers of the recorded sizes -----

  ghost predicate RightSizes(job: Job, chunks: seq<Bytes>) {
    |job.answers| == |chunks| && forall i :: 0 <= i < |chunks| ==> |job.answers[i]| == |chunks[i]|
  }

  /** Answers of the recorded sizes have exactly one byte for each position of the file. */
  lemma OneAnswerEach(job: Job, file: Bytes, chunks: seq<Bytes>, p: nat) returns (i: nat)
    requires 0 < job.chunkSize && Partitions(file, job.chunkSize, chunks) && RightSizes(job, chunks) && p < |file|
    ensures Covers(job, i, p) && i < |chunks| && chunks[i][p - Offset(i, job.chunkSize)] == file[p]
    ensures forall j: nat :: Covers(job, j, p) ==> j == i
  {
    i := p / job.chunkSize;
    assert p == job.chunkSize * i + p % job.chunkSize;
    assert Offset(i, job.chunkSize) == job.chunkSize * i;
    hide Offset;
    ChunksReach(file, job.chunkSize, chunks, |chunks|);
    assert chunks[..|chunks|] == chunks;
    if |chunks| < i { OffsetOrder(|chunks|, i, job.chunkSize); }
    assert IsChunk(file, job.chunkSize, |chunks|, i, chunks[i]);
    OffsetOrder(i, i + 1, job.chunkSize);
    forall j: nat | Covers(job, j, p) ensures j == i {
      assert IsChunk(file, job.chunkSize, |chunks|, j, chunks[j]);
      if j < i { OffsetOrder(j, i, job.chunkSize); }
      if i < j { OffsetOrder(i, j, job.chunkSize); }
    }
  }

  /** The chunks themselves, whatever the file held before, rebuild it in every completed run. */
  lemma ChunksRebuild(job: Job, file: Bytes, steps: seq<Step>)
    requires |file| == job.contentLen && 0 < job.chunkSize && Partitions(file, job.chunkSize, job.answers)
    ensures Rebuilds(job, file, steps)
  {
    hide Offset;
    forall p | 0 <= p < |file| ensures Covered(job, p) {
      var i := OneAnswerEach(job, file, job.answers, p);
    }
    forall i | 0 <= i < |job.answers| ensures Fits(job, file, i) {
      assert IsChunk(file, job.chunkSize, |job.answers|, i, job.answers[i]);
    }
    FittingAnswersRebuild(job, file, steps);
  }

  /** Of answers of the recorded sizes, only the chunks do. */
  lemma OnlyChunksRebuild(job: Job, file: Bytes, chunks: seq<Bytes>, steps: seq<Step>, i: nat)
    requires 0 < job.chunkSize && Partitions(file, job.chunkSize, chunks) && RightSizes(job, chunks) && i < |chunks|
    requires Completed(job, steps) && Run(job, steps).data == file
    ensures job.answers[i] == chunks[i]
  {
    hide Offset, Run;
    assert IsChunk(file, job.chunkSize, |chunks|, i, chunks[i]);
    forall q | 0 <= q < |chunks[i]| ensures job.answers[i][q] == chunks[i][q] {
      var p := Offset(i, job.chunkSize) + q;
      FullCountBytes(job, steps, p);
      var j := OneAnswerEach(job, file, chunks, p);
      assert Covers(job, i, p);
    }
  }

  /**
   * The round trip: a completed run rebuilds the file if every answer is its chunk, and, of answers of the recorded
   * sizes, no others do.
   */
  lemma DownloadRoundTrip(job: Job, file: Bytes, chunks: seq<Bytes>, steps: seq<Step>)
    requires |file| == job.contentLen && 0 < job.chunkSize && Partitions(file, job.chunkSize, chunks)
    requires Completed(job, steps)
    ensures job.answers == chunks ==> Run(job, steps).data == file
    ensures RightSizes(job, chunks) && Run(job, steps).data == file ==> job.answers == chunks
  {
    hide Partitions, Run;
    if job.answers == chunks {
      ChunksRebuild(job, file, steps);
    } else if RightSizes(job, chunks) && Run(job, steps).data == file {
      forall i | 0 <= i < |chunks| ensures job.answers[i] == chunks[i] {
        OnlyChunksRebuild(job, file, chunks, steps, i);
      }
    }
  }
}
