/** The search back from a mismatch, and the watch loop with its resumable cursor. */
module Watch {
  import opened Wrappers
  import opened BlockTable
  import opened BlockChecker
  import opened Words

  const UMAX := TWO64 - 1

  // ----- The backward search -----

  /** What a probe of one block finds. */
  ghost predicate ProbedBad(nodes: seq<Name>, answers: nat -> Row, b: nat)
    requires Complete(nodes, [answers(b)])
  {
    MismatchesOf(nodes, [answers(b)], b, 1) != []
  }

  /** A probe sees field differences only: the block before it is not there to check links against. */
  lemma ProbeSeesFieldsOnly(nodes: seq<Name>, answers: nat -> Row, b: nat)
    requires Complete(nodes, [answers(b)]) && forall k :: k in nodes ==> k in answers(b)
    ensures ProbedBad(nodes, answers, b) <==> |Valid(nodes, answers(b))| >= 2 && Disagree(Valid(nodes, answers(b)))
  {
    SingleBlockSeesNoBreak(nodes, answers(b));
    assert BlocksWith(Mismatched, nodes, [answers(b)], b, 0) == [];
  }

  ghost predicate Answering(nodes: seq<Name>, answers: nat -> Row) {
    forall b: nat :: Complete(nodes, [answers(b)])
  }

  method Probe(hex: string -> nat, nodes: seq<Name>, answers: nat -> Row, b: nat) returns (bad: bool)
    requires Distinct(nodes) && Complete(nodes, [answers(b)])
    ensures bad == ProbedBad(nodes, answers, b)
  {
    var m := CheckBatch(hex, nodes, [answers(b)], b);
    bad := |m.mismatches| > 0;
  }

  /**
   * `r` is a mismatch with, right before it, the first block or one that probes clean. If mismatches go on once they
   * start, it is the first of them.
   */
  ghost predicate Found(nodes: seq<Name>, answers: nat -> Row, first: nat, r: nat)
    requires Answering(nodes, answers)
  {
    && 1 <= r <= first
    && (r == first || ProbedBad(nodes, answers, r))
    && (r == 1 || !ProbedBad(nodes, answers, r - 1))
    && ((forall b, c :: 1 <= b <= c < first && ProbedBad(nodes, answers, b) ==> ProbedBad(nodes, answers, c))
        ==> forall b :: 1 <= b < first ==> (ProbedBad(nodes, answers, b) <==> r <= b))
  }

  /**
   * Binary search for the first mismatch, from one that a batch showed at `first`. No order among the probes is
   * assumed; each block is probed at most once, so answers that change with time are covered too.
   */
  method BackwardSearch(hex: string -> nat, nodes: seq<Name>, answers: nat -> Row, first: nat)
      returns (r: nat, ghost probed: set<nat>)
    requires Distinct(nodes) && 1 <= first <= UMAX && Answering(nodes, answers)
    ensures Found(nodes, answers, first, r)
    ensures (r == first || r in probed) && (r == 1 || r - 1 in probed)
  {
    hide ProbedBad;
    r := first;
    var low, high := 1, first - 1;
    probed := {};
    while low <= high
      invariant 1 <= low <= high + 1 && high == r - 1 && r <= first
      invariant forall b :: b in probed ==> b < low || b > high
      invariant r == first || (r in probed && ProbedBad(nodes, answers, r))
      invariant low == 1 || (low - 1 in probed && !ProbedBad(nodes, answers, low - 1))
      decreases high - low + 1
    {
      var mid := low + (high - low) / 2;
      assert mid !in probed && mid <= UMAX;
      var bad := Probe(hex, nodes, answers, mid);
      probed := probed + {mid};
      if bad {
        r := mid;
        high := mid - 1;
      } else {
        low := mid + 1;
      }
    }
  }

  // ----- What a pass checks -----

  /** The answers as the network gives them: they may differ from one check to the next. */
  type Network = (nat, nat) -> Row

  ghost predicate Online(nodes: seq<Name>, net: Network) {
    forall t: nat, b: nat, k {:trigger net(t, b), k in nodes} :: k in nodes ==> k in net(t, b)
  }

  /** The answers at one moment. */
  function Moment(net: Network, t: nat): nat -> Row {
    (b: nat) => net(t, b)
  }

  function Fetch(net: Network, t: nat, from: nat, to: nat): (rows: seq<Row>)
    requires from <= to + 1
    ensures |rows| == to + 1 - from && forall i :: 0 <= i < |rows| ==> rows[i] == net(t, from + i)
  {
    seq(to + 1 - from, i requires 0 <= i => net(t, from + i))
  }

  /** One final check of a range of blocks. */
  datatype Check = Check(from: nat, rows: seq<Row>)

  ghost predicate WellFormed(nodes: seq<Name>, checks: seq<Check>) {
    forall c :: c in checks ==> Complete(nodes, c.rows)
  }

  ghost function Shown(nodes: seq<Name>, c: Check): seq<Mismatch>
    requires Complete(nodes, c.rows)
  {
    MismatchesOf(nodes, c.rows, c.from, |c.rows|)
  }

  ghost predicate Clean(nodes: seq<Name>, checks: seq<Check>)
    requires WellFormed(nodes, checks)
  {
    forall c :: c in checks ==> Shown(nodes, c) == []
  }

  ghost predicate Within(c: Check, b: nat) {
    c.from <= b < c.from + |c.rows|
  }

  /** Block `b` was in a checked range whose final result had no mismatch. */
  ghost predicate Cleared(nodes: seq<Name>, checks: seq<Check>, b: nat)
    requires WellFormed(nodes, checks)
  {
    exists c :: c in checks && Within(c, b) && Shown(nodes, c) == []
  }

  /** The rows are what the network answered at time `t`. */
  ghost predicate AnsweredAt(net: Network, t: nat, c: Check) {
    forall i :: 0 <= i < |c.rows| ==> c.rows[i] == net(t, c.from + i)
  }

  ghost predicate Genuine(net: Network, checks: seq<Check>) {
    forall c :: c in checks ==> exists t: nat :: AnsweredAt(net, t, c)
  }

  const BATCH := 20

  function Min(a: nat, b: nat): nat {
    if a < b then a else b
  }

  /**
   * The `j`th batch of a pass from `lo` to `hi`: it starts `20 * j` blocks in, and is full unless the range ends in
   * it.
   */
  ghost predicate IsBatch(c: Check, lo: nat, hi: nat, j: nat) {
    && c.from == lo + BATCH * j && c.from <= hi
    && c.from + |c.rows| == Min(lo + BATCH * j + BATCH, hi + 1)
  }

  ghost predicate AreBatches(recent: seq<Check>, lo: nat, hi: nat) {
    forall j :: 0 <= j < |recent| ==> IsBatch(recent[j], lo, hi, j)
  }

  /** All batches of the range, and all clean. */
  ghost predicate Swept(nodes: seq<Name>, recent: seq<Check>, lo: nat, hi: nat)
    requires WellFormed(nodes, recent)
  {
    AreBatches(recent, lo, hi) && hi < lo + BATCH * |recent| && Clean(nodes, recent)
  }

  /** What the last check showed. */
  ghost function LastMismatches(nodes: seq<Name>, checks: seq<Check>): seq<Mismatch>
    requires WellFormed(nodes, checks)
  {
    if checks == [] then [] else Shown(nodes, checks[|checks| - 1])
  }

  /** The last check shows a mismatch, and it is the first that does. */
  ghost predicate EndsDirty(nodes: seq<Name>, checks: seq<Check>)
    requires WellFormed(nodes, checks)
  {
    checks != [] && LastMismatches(nodes, checks) != [] && Clean(nodes, checks[..|checks| - 1])
  }

  /** The batches of the range up to the first with a mismatch, which is the last. */
  ghost predicate StoppedAt(nodes: seq<Name>, recent: seq<Check>, lo: nat, hi: nat)
    requires WellFormed(nodes, recent)
  {
    AreBatches(recent, lo, hi) && EndsDirty(nodes, recent)
  }

  lemma CheckAdded(nodes: seq<Name>, recent: seq<Check>, check: Check)
    requires WellFormed(nodes, recent) && Complete(nodes, check.rows)
    ensures WellFormed(nodes, recent + [check]) && LastMismatches(nodes, recent + [check]) == Shown(nodes, check)
    ensures Clean(nodes, recent) && Shown(nodes, check) == [] ==> Clean(nodes, recent + [check])
    ensures Clean(nodes, recent) && Shown(nodes, check) != [] ==> EndsDirty(nodes, recent + [check])
  {
    hide Shown, Complete;
    assert (recent + [check])[..|recent|] == recent;
  }

  lemma BatchAdded(recent: seq<Check>, check: Check, lo: nat, hi: nat)
    requires AreBatches(recent, lo, hi) && IsBatch(check, lo, hi, |recent|)
    ensures AreBatches(recent + [check], lo, hi)
  {
  }

  lemma FirstMismatchInRange(nodes: seq<Name>, c: Check)
    requires Complete(nodes, c.rows) && Shown(nodes, c) != []
    ensures Within(c, Shown(nodes, c)[0].block)
  {
    BlocksWithContents(Mismatched, nodes, c.rows, c.from, |c.rows|);
    var bad := BlocksWith(Mismatched, nodes, c.rows, c.from, |c.rows|);
    assert bad[0] in bad;
  }

  /** Every block of a clean pass is cleared by the batch it falls in. */
  lemma SweepClears(nodes: seq<Name>, recent: seq<Check>, lo: nat, hi: nat, b: nat)
    requires WellFormed(nodes, recent) && Swept(nodes, recent, lo, hi) && lo <= b <= hi
    ensures Cleared(nodes, recent, b)
  {
    var j := (b - lo) / BATCH;
    assert j < |recent| && recent[j] in recent && IsBatch(recent[j], lo, hi, j);
    assert Within(recent[j], b);
  }

  lemma StillCleared(nodes: seq<Name>, checks: seq<Check>, more: seq<Check>, b: nat)
    requires WellFormed(nodes, checks) && WellFormed(nodes, more) && (forall c :: c in checks ==> c in more)
    requires Cleared(nodes, checks, b)
    ensures Cleared(nodes, more, b)
  {
    hide Shown;
  }

  // ----- Which links a pass sees -----

  /** Some check holds block `b` and the block before it. */
  ghost predicate LinkSeen(checks: seq<Check>, b: nat) {
    exists c :: c in checks && c.from < b < c.from + |c.rows|
  }

  /**
   * A pass sees the links inside its batches and no other: not the one into its first block, nor every twentieth
   * after.
   */
  lemma LinksSeen(recent: seq<Check>, lo: nat, hi: nat, b: nat)
    requires AreBatches(recent, lo, hi) && hi < lo + BATCH * |recent|
    ensures LinkSeen(recent, b) <==> lo < b <= hi && (b - lo) % 20 != 0
  {
    if lo < b <= hi && (b - lo) % BATCH != 0 {
      var j := (b - lo) / BATCH;
      assert j < |recent| && recent[j] in recent && IsBatch(recent[j], lo, hi, j);
    }
    forall c | c in recent && c.from < b < c.from + |c.rows| ensures lo < b <= hi && (b - lo) % BATCH != 0 {
      var j :| 0 <= j < |recent| && recent[j] == c;
      assert IsBatch(c, lo, hi, j) && 0 < b - lo - BATCH * j < BATCH;
      assert (b - lo) % BATCH == b - lo - BATCH * j;
    }
  }

  /** If block `i` of a range is compared, every node valid there and right before has its link between the two. */
  ghost predicate LinksHold(nodes: seq<Name>, rows: seq<Row>, i: nat)
    requires Complete(nodes, rows) && 0 < i < |rows|
  {
    Compared(nodes, rows, i) ==>
      forall k :: k in nodes && !rows[i - 1][k].IsError() && !rows[i][k].IsError() ==>
        rows[i][k].parentHash == rows[i - 1][k].hash
  }

  lemma AgreedLinksHold(nodes: seq<Name>, rows: seq<Row>, i: nat)
    requires Complete(nodes, rows) && 0 < i < |rows| && Agreed(nodes, rows, i)
    ensures LinksHold(nodes, rows, i)
  {
    if Compared(nodes, rows, i) {
      assert forall k :: k in nodes ==> !Broken(nodes, rows, i, k);
    }
  }

  /** The links a clean pass has seen hold, as far as the block is compared. */
  lemma SeenLinksHold(nodes: seq<Name>, checks: seq<Check>, b: nat)
    requires WellFormed(nodes, checks) && Clean(nodes, checks) && LinkSeen(checks, b)
    ensures exists c :: c in checks && c.from < b < c.from + |c.rows| && Complete(nodes, c.rows)
                   && LinksHold(nodes, c.rows, b - c.from)
  {
    hide Agreed, MismatchesOf, LinksHold, Complete;
    var c :| c in checks && c.from < b < c.from + |c.rows|;
    assert Shown(nodes, c) == [];
    CleanMeansAgreement(nodes, c.rows, c.from);
    AgreedLinksHold(nodes, c.rows, b - c.from);
  }

  /**
   * The check has block `b`, with its valid answers in agreement if there were two, and its links if it is not first.
   */
  ghost predicate SeenAgreed(nodes: seq<Name>, c: Check, b: nat) {
    && Complete(nodes, c.rows) && Within(c, b)
    && (Compared(nodes, c.rows, b - c.from) ==> !Disagree(BlockTable.Valid(nodes, c.rows[b - c.from])))
    && (c.from < b ==> LinksHold(nodes, c.rows, b - c.from))
  }

  lemma CleanIsAgreed(nodes: seq<Name>, c: Check, b: nat)
    requires Complete(nodes, c.rows) && Shown(nodes, c) == [] && Within(c, b)
    ensures SeenAgreed(nodes, c, b)
  {
    hide MismatchesOf, Disagree, Broken, BlockTable.Valid, LinksHold;
    CleanMeansAgreement(nodes, c.rows, c.from);
    assert Agreed(nodes, c.rows, b - c.from);
    if c.from < b { AgreedLinksHold(nodes, c.rows, b - c.from); }
  }

  /** A cleared block was seen by some check, as far as that check looks. */
  lemma ClearedMeansAgreed(nodes: seq<Name>, checks: seq<Check>, b: nat)
    requires WellFormed(nodes, checks) && Cleared(nodes, checks, b)
    ensures exists c :: c in checks && SeenAgreed(nodes, c, b)
  {
    hide SeenAgreed, Shown;
    var c :| c in checks && Within(c, b) && Shown(nodes, c) == [];
    CleanIsAgreed(nodes, c, b);
  }

  /** All answers for a block with another parent hash. */
  function Reparented(row: Row, parent: string): Row {
    map k | k in row :: row[k].(parentHash := parent)
  }

  lemma {:induction false} ReparentedValid(nodes: seq<Name>, row: Row, parent: string)
    requires Has(nodes, row)
    ensures Has(nodes, Reparented(row, parent)) && |Valid(nodes, Reparented(row, parent))| == |Valid(nodes, row)|
    ensures forall j :: 0 <= j < |Valid(nodes, row)| ==>
              Valid(nodes, Reparented(row, parent))[j] == Valid(nodes, row)[j].(parentHash := parent)
  {
    if nodes != [] { ReparentedValid(nodes[..|nodes| - 1], row, parent); }
  }

  lemma ReparentedAgree(nodes: seq<Name>, row: Row, parent: string)
    requires Has(nodes, row) && !Disagree(Valid(nodes, row))
    ensures Has(nodes, Reparented(row, parent)) && !Disagree(Valid(nodes, Reparented(row, parent)))
  {
    ReparentedValid(nodes, row, parent);
    var v, w := Valid(nodes, row), Valid(nodes, Reparented(row, parent));
    hide Valid;
    forall a, b | a in w && b in w ensures SameView(a, b) {
      var i :| 0 <= i < |w| && w[i] == a;
      var j :| 0 <= j < |w| && w[j] == b;
      assert v[i] in v && v[j] in v && SameView(v[i], v[j]);
    }
  }

  lemma ReparentedAgreed(nodes: seq<Name>, rows: seq<Row>, parent: string, i: nat)
    requires Complete(nodes, rows) && i < |rows| && Agreed(nodes, rows, i)
    ensures var other := rows[0 := Reparented(rows[0], parent)]; Complete(nodes, other) && Agreed(nodes, other, i)
  {
    var other := rows[0 := Reparented(rows[0], parent)];
    if i == 0 {
      ReparentedValid(nodes, rows[0], parent);
      hide BlockTable.Valid;
      if Compared(nodes, rows, 0) { ReparentedAgree(nodes, rows[0], parent); }
    } else {
      hide BlockTable.Valid;
      assert forall k :: k in nodes ==> (Broken(nodes, other, i, k) <==> Broken(nodes, rows, i, k));
    }
  }

  /** The link into the first block of a check is never looked at: a clean check stays clean whatever it says. */
  lemma FirstLinkIsFree(nodes: seq<Name>, from: nat, rows: seq<Row>, parent: string)
    requires Complete(nodes, rows) && rows != [] && MismatchesOf(nodes, rows, from, |rows|) == []
    ensures var other := rows[0 := Reparented(rows[0], parent)];
            Complete(nodes, other) && MismatchesOf(nodes, other, from, |other|) == []
  {
    hide Agreed, MismatchesOf, Reparented;
    var other := rows[0 := Reparented(rows[0], parent)];
    CleanMeansAgreement(nodes, rows, from);
    ReparentedAgreed(nodes, rows, parent, 0);
    forall i | 0 <= i < |other| ensures Agreed(nodes, other, i) { ReparentedAgreed(nodes, rows, parent, i); }
    CleanMeansAgreement(nodes, other, from);
  }

  // ----- Is only the sync node off? -----

  /** A node that is not the sync node, with an answer at a block. */
  predicate Votes(blocks: Row, k: Name) {
    k in blocks && k != "m4" && k != "node4" && !blocks[k].IsError()
  }

  ghost predicate VotersAgree(blocks: Row) {
    forall j, k :: Votes(blocks, j) && Votes(blocks, k) ==> blocks[j].hash == blocks[k].hash
  }

  /** The same of the voters that gave a hash at all; an empty one is overlooked when it comes first. */
  ghost predicate HashesAgree(blocks: Row) {
    forall j, k :: Votes(blocks, j) && Votes(blocks, k) && blocks[j].hash != "" && blocks[k].hash != ""
      ==> blocks[j].hash == blocks[k].hash
  }

  /** The nodes of a block come in any order. */
  method VotersMatch(blocks: Row) returns (same: bool)
    ensures VotersAgree(blocks) ==> same
    ensures same ==> HashesAgree(blocks)
  {
    var refHash, names := "", blocks.Keys;
    while names != {}
      invariant names <= blocks.Keys
      invariant refHash != "" ==> exists j :: Votes(blocks, j) && blocks[j].hash == refHash
      invariant forall j :: Votes(blocks, j) && j !in names ==> blocks[j].hash == refHash || blocks[j].hash == ""
      decreases |names|
    {
      var nodeName :| nodeName in names;
      names := names - {nodeName};
      if Votes(blocks, nodeName) {
        if refHash == "" {
          refHash := blocks[nodeName].hash;
        } else if refHash != blocks[nodeName].hash {
          return false;
        }
      }
    }
    return true;
  }

  method SyncNodeMismatchOnly(mismatches: seq<Mismatch>) returns (only: bool)
    ensures (forall m :: m in mismatches ==> VotersAgree(m.blocks)) ==> only
    ensures only ==> forall m :: m in mismatches ==> HashesAgree(m.blocks)
  {
    hide VotersAgree, HashesAgree;
    for i := 0 to |mismatches|
      invariant forall j :: 0 <= j < i ==> HashesAgree(mismatches[j].blocks)
    {
      var same := VotersMatch(mismatches[i].blocks);
      if !same { return false; }
    }
    return true;
  }

  /** The answers of one check stand, unless it shows the sync node alone to be off: then those of a second do. */
  ghost predicate Settled(nodes: seq<Name>, net: Network, time: nat, lo: nat, hi: nat,
                          mismatches: seq<Mismatch>, rows: seq<Row>, time': nat)
    requires Online(nodes, net) && lo <= hi
  {
    var first := Fetch(net, time, lo, hi);
    var found := MismatchesOf(nodes, first, lo, |first|);
    || (time' == time + 1 && rows == first && (found == [] || exists m :: m in found && !VotersAgree(m.blocks)))
    || (time' == time + 2 && rows == Fetch(net, time + 1, lo, hi) && found != []
        && forall m :: m in found ==> HashesAgree(m.blocks))
  }

  /** Node `k`, not the sync node, answers this block with this hash. */
  predicate Says(blocks: Row, k: Name, hash: string) {
    k in blocks && k !in {"m4", "node4"} && blocks[k].error == "" && blocks[k].hash == hash
  }

  ghost predicate AllSay(blocks: Row, hash: string) {
    forall k :: k in blocks && k !in {"m4", "node4"} && blocks[k].error == "" ==> blocks[k].hash == hash
  }

  /** All nodes but the sync node that answer give one hash, and it is not empty. */
  ghost predicate OthersShare(blocks: Row) {
    exists h :: h != "" && AllSay(blocks, h)
  }

  /** Two nodes other than the sync node give different hashes. */
  ghost predicate OthersDiffer(blocks: Row) {
    exists j, k, g, h :: g != "" && h != "" && g != h && Says(blocks, j, g) && Says(blocks, k, h)
  }

  /**
   * A batch with mismatches is checked again if the others share a hash in all of them, and not if in one they differ.
   */
  lemma SecondCheckIff(nodes: seq<Name>, net: Network, time: nat, lo: nat, hi: nat,
                       mismatches: seq<Mismatch>, rows: seq<Row>, time': nat)
    requires Online(nodes, net) && lo <= hi && Settled(nodes, net, time, lo, hi, mismatches, rows, time')
    ensures var first := Fetch(net, time, lo, hi);
            var found := MismatchesOf(nodes, first, lo, |first|);
            && (found == [] ==> time' == time + 1)
            && (found != [] && (forall m :: m in found ==> OthersShare(m.blocks)) ==> time' == time + 2)
            && ((exists m :: m in found && OthersDiffer(m.blocks)) ==> time' == time + 1)
  {
    hide MismatchesOf;
    forall blocks: Row ensures OthersShare(blocks) ==> VotersAgree(blocks) {}
    forall blocks: Row ensures OthersDiffer(blocks) ==> !HashesAgree(blocks) {}
    hide VotersAgree, HashesAgree, OthersShare, OthersDiffer;
  }

  // ----- The heads -----

  function Responding(heads: seq<Option<nat>>): nat {
    if heads == [] then 0
    else Responding(heads[..|heads| - 1]) + (if heads[|heads| - 1].Some? then 1 else 0)
  }

  /** The number of heads that came in. */
  lemma {:induction false} RespondingCounts(heads: seq<Option<nat>>)
    ensures Responding(heads) == |set i | 0 <= i < |heads| && heads[i].Some?|
  {
    if heads != [] {
      var n := |heads| - 1;
      RespondingCounts(heads[..n]);
      var before := set i | 0 <= i < n && heads[..n][i].Some?;
      assert (set i | 0 <= i < |heads| && heads[i].Some?) == if heads[n].Some? then before + {n} else before;
    }
  }

  ghost predicate IsLowest(heads: seq<Option<nat>>, low: nat) {
    Some(low) in heads && forall h :: h in heads && h.Some? ==> low <= h.value
  }

  ghost predicate IsHighest(heads: seq<Option<nat>>, high: nat) {
    Some(high) in heads && forall h :: h in heads && h.Some? ==> h.value <= high
  }

  /** The lowest and highest head after one more answer; before the first, `low` and `high` are out of the way. */
  lemma HeadAdded(heads: seq<Option<nat>>, h: Option<nat>, low: nat, high: nat)
    requires Responding(heads) > 0 ==> IsLowest(heads, low) && IsHighest(heads, high)
    requires Responding(heads) == 0 ==>
               (forall g :: g in heads ==> g.None?) && high == 0 && (h.Some? ==> h.value <= low)
    ensures h.None? && Responding(heads) > 0 ==> IsLowest(heads + [h], low) && IsHighest(heads + [h], high)
    ensures h.Some? ==> IsLowest(heads + [h], Min(h.value, if Responding(heads) == 0 then h.value else low))
    ensures h.Some? ==> IsHighest(heads + [h], if h.value > high then h.value else high)
  {
    assert h in heads + [h];
  }

  method ReadHeads(heads: seq<Option<nat>>) returns (minBlock: nat, maxBlock: nat, responding: nat)
    requires forall h :: h in heads && h.Some? ==> h.value <= UMAX
    ensures responding == Responding(heads)
    ensures responding == 0 ==> minBlock == UMAX
    ensures responding > 0 ==> IsLowest(heads, minBlock) && IsHighest(heads, maxBlock) && minBlock <= maxBlock <= UMAX
  {
    minBlock, maxBlock, responding := UMAX, 0, 0;
    for i := 0 to |heads|
      invariant responding == Responding(heads[..i])
      invariant responding == 0 ==> minBlock == UMAX && maxBlock == 0 && forall h :: h in heads[..i] ==> h.None?
      invariant responding > 0 ==> IsLowest(heads[..i], minBlock) && IsHighest(heads[..i], maxBlock)
    {
      hide IsLowest, IsHighest;
      assert heads[..i + 1][..i] == heads[..i];
      assert heads[..i + 1] == heads[..i] + [heads[i]];
      assert heads[i] in heads;
      HeadAdded(heads[..i], heads[i], minBlock, maxBlock);
      if heads[i].Some? {
        responding := responding + 1;
        if heads[i].value < minBlock { minBlock := heads[i].value; }
        if heads[i].value > maxBlock { maxBlock := heads[i].value; }
      }
    }
    assert heads[..|heads|] == heads;
  }

  /** The start of the batch after the last one of a pass from `lo` to `hi` is a uint64. */
  predicate SweepFits(lo: nat, hi: nat)
    requires lo <= hi
  {
    lo + BATCH * ((hi - lo) / BATCH + 1) <= UMAX
  }

  /**
   * Exactly then does the counter of a clean pass end past `hi`; otherwise it wraps, and the pass starts over near
   * block 0.
   */
  lemma SweepEndsIff(lo: nat, hi: nat)
    requires lo <= hi <= UMAX
    ensures var next := (lo + BATCH * ((hi - lo) / BATCH + 1)) % TWO64;
            (next > hi <==> SweepFits(lo, hi)) && (!SweepFits(lo, hi) ==> next < BATCH)
  {
    var q := (hi - lo) / BATCH;
    assert hi - lo == BATCH * q + (hi - lo) % BATCH;
  }

  /** Until then it does not wrap. */
  lemma StaysBelow(lo: nat, hi: nat, j: nat)
    requires lo + BATCH * j <= hi && SweepFits(lo, hi)
    ensures lo + BATCH * j + BATCH <= UMAX
  {
    assert j <= (hi - lo) / BATCH;
  }

  // ----- The watch -----

  /** What the nodes report at one tick: their heads and the answers they give. */
  datatype Tick = Tick(heads: seq<Option<nat>>, net: Network)

  ghost predicate Sane(nodes: seq<Name>, tick: Tick) {
    Online(nodes, tick.net) && forall h :: h in tick.heads && h.Some? ==> h.value <= UMAX
  }

  /**
   * Where a pass starts: after the cursor, or, when the cursor is past the lowest head, at that head again, so that
   * what the node that came back has there is looked at anew. There is no block before 1.
   */
  predicate StartsAt(cursor: nat, low: nat, from: nat) {
    && (cursor <= low ==> from == cursor + 1)
    && (cursor > low > 0 ==> from == low)
    && (cursor > low == 0 ==> from == 1)
  }

  /** The pass from this cursor does not wrap its counter. */
  ghost predicate PassFits(cursor: nat, heads: seq<Option<nat>>) {
    forall low: nat, high: nat, from: nat ::
      IsLowest(heads, low) && IsHighest(heads, high) && StartsAt(cursor, low, from) && from <= high ==>
        SweepFits(from, high)
  }

  /** Heads from which no pass, whatever the cursor, can wrap its counter. */
  ghost predicate Roomy(heads: seq<Option<nat>>) {
    forall h :: h in heads && h.Some? ==> h.value + BATCH <= UMAX
  }

  lemma RoomyFits(cursor: nat, heads: seq<Option<nat>>)
    requires Roomy(heads)
    ensures PassFits(cursor, heads)
  {
    forall low: nat, high: nat, from: nat
      | IsLowest(heads, low) && IsHighest(heads, high) && StartsAt(cursor, low, from) && from <= high
      ensures SweepFits(from, high)
    {
      assert high - from == BATCH * ((high - from) / BATCH) + (high - from) % BATCH;
    }
  }

  /** The block reported is what the search back from the first mismatch of the last check found. */
  ghost predicate Traced(nodes: seq<Name>, recent: seq<Check>, tick: Tick, time: nat, realFirst: nat) {
    && WellFormed(nodes, recent) && LastMismatches(nodes, recent) != [] && Answering(nodes, Moment(tick.net, time))
    && Found(nodes, Moment(tick.net, time), LastMismatches(nodes, recent)[0].block, realFirst)
  }

  ghost predicate PassedFrom(nodes: seq<Name>, cursor': nat, low: nat, high: nat, recent: seq<Check>, stop: bool,
                             from: nat)
    requires WellFormed(nodes, recent)
  {
    && cursor' == (if stop || from > high then from - 1 else low)
    && (from > high ==> !stop && recent == [])
    && (from <= high && !stop ==> Swept(nodes, recent, from, high))
    && (stop ==> StoppedAt(nodes, recent, from, high))
  }

  /**
   * What a pass with two responders or more does. It checks from its start up to the highest head, if there is anything
   * there. Clean, it leaves the cursor at the lowest head; stopped, or with nothing to check, right before its start.
   */
  ghost predicate Passed(nodes: seq<Name>, net: Network, cursor: nat, cursor': nat, low: nat, high: nat,
                         recent: seq<Check>, stop: bool)
    requires WellFormed(nodes, recent)
  {
    && Genuine(net, recent)
    && exists from: nat :: StartsAt(cursor, low, from) && PassedFrom(nodes, cursor', low, high, recent, stop, from)
  }

  /** Checks put behind others keep what they showed. */
  lemma ChecksAdded(nodes: seq<Name>, checks: seq<Check>, recent: seq<Check>)
    requires WellFormed(nodes, checks) && WellFormed(nodes, recent)
    ensures WellFormed(nodes, checks + recent) && (checks + recent)[|checks|..] == recent
  {
  }

  lemma CursorKept(nodes: seq<Name>, checks: seq<Check>, more: seq<Check>, cursor: nat)
    requires WellFormed(nodes, checks) && WellFormed(nodes, more) && checks <= more
    requires forall b :: 1 <= b <= cursor ==> Cleared(nodes, checks, b)
    ensures forall b :: 1 <= b <= cursor ==> Cleared(nodes, more, b)
  {
    forall b | 1 <= b <= cursor ensures Cleared(nodes, more, b) { StillCleared(nodes, checks, more, b); }
  }

  /** A clean sweep from the cursor to the highest head clears every block up to the lowest. */
  lemma CursorMoves(nodes: seq<Name>, checks: seq<Check>, more: seq<Check>, cursor: nat, low: nat, high: nat)
    requires WellFormed(nodes, checks) && WellFormed(nodes, more) && checks <= more && low <= high
    requires forall b :: 1 <= b <= cursor ==> Cleared(nodes, more, b)
    requires Swept(nodes, more[|checks|..], cursor + 1, high)
    ensures forall b :: 1 <= b <= low ==> Cleared(nodes, more, b)
  {
    hide Swept, Cleared;
    var recent := more[|checks|..];
    forall b | cursor < b <= low ensures Cleared(nodes, more, b) {
      SweepClears(nodes, recent, cursor + 1, high, b);
      StillCleared(nodes, recent, more, b);
    }
  }

  lemma EndsDirtyAfter(nodes: seq<Name>, a: seq<Check>, b: seq<Check>)
    requires WellFormed(nodes, a) && WellFormed(nodes, b) && Clean(nodes, a) && EndsDirty(nodes, b)
    ensures WellFormed(nodes, a + b) && EndsDirty(nodes, a + b)
  {
    hide Shown;
    assert (a + b)[..|a + b| - 1] == a + b[..|b| - 1];
  }

  /** The chunk loop after some clean batches. */
  ghost predicate Sweeping(nodes: seq<Name>, net: Network, recent: seq<Check>, lo: nat, hi: nat) {
    WellFormed(nodes, recent) && Clean(nodes, recent) && AreBatches(recent, lo, hi) && Genuine(net, recent)
  }

  /** One more batch, fetched at time `t`: the sweep goes on, or has met its first mismatch. */
  lemma SweepGoesOn(nodes: seq<Name>, net: Network, recent: seq<Check>, check: Check, lo: nat, hi: nat, t: nat)
    requires Sweeping(nodes, net, recent, lo, hi) && Complete(nodes, check.rows)
    requires IsBatch(check, lo, hi, |recent|) && AnsweredAt(net, t, check) && lo >= 1
    ensures WellFormed(nodes, recent + [check]) && LastMismatches(nodes, recent + [check]) == Shown(nodes, check)
    ensures Genuine(net, recent + [check])
    ensures Shown(nodes, check) == [] ==> Sweeping(nodes, net, recent + [check], lo, hi)
    ensures Shown(nodes, check) != [] ==>
              StoppedAt(nodes, recent + [check], lo, hi) && 1 <= Shown(nodes, check)[0].block <= hi
  {
    hide Shown;
    CheckAdded(nodes, recent, check);
    BatchAdded(recent, check, lo, hi);
    if Shown(nodes, check) != [] { FirstMismatchInRange(nodes, check); }
    hide WellFormed, Clean, AreBatches, EndsDirty, LastMismatches, AnsweredAt;
    assert forall c :: c in recent + [check] <==> c in recent || c == check;
  }

  /** The rows that stand are what the network answered at the last time asked. */
  lemma SettledAnswers(nodes: seq<Name>, net: Network, time: nat, lo: nat, hi: nat,
                       mismatches: seq<Mismatch>, rows: seq<Row>, time': nat)
    requires Online(nodes, net) && lo <= hi && Settled(nodes, net, time, lo, hi, mismatches, rows, time')
    ensures time' > 0 && AnsweredAt(net, time' - 1, Check(lo, rows))
  {
    hide MismatchesOf;
  }

  lemma SweepStarts(nodes: seq<Name>, net: Network, lo: nat, hi: nat)
    ensures Sweeping(nodes, net, [], lo, hi) && WellFormed(nodes, []) && LastMismatches(nodes, []) == []
  {
  }

  lemma SweepEnds(nodes: seq<Name>, net: Network, recent: seq<Check>, lo: nat, hi: nat)
    requires Sweeping(nodes, net, recent, lo, hi) && hi < lo + BATCH * |recent|
    ensures WellFormed(nodes, recent) && Genuine(net, recent) && Swept(nodes, recent, lo, hi)
  {
  }

  class Watcher {
    var lastVerifiedBlock: nat
    ghost var checks: seq<Check>
    const nodes: seq<Name>

    /** Every block up to the cursor was cleared by some check. */
    ghost predicate Valid()
      reads this
    {
      && Distinct(nodes) && WellFormed(nodes, checks)
      && forall b :: 1 <= b <= lastVerifiedBlock ==> Cleared(nodes, checks, b)
    }

    constructor (nodes: seq<Name>)
      requires Distinct(nodes)
      ensures Valid() && lastVerifiedBlock == 0 && checks == [] && this.nodes == nodes
    {
      this.nodes := nodes;
      lastVerifiedBlock, checks := 0, [];
    }

    /** One batch, checked once more if only the sync node is off. */
    method CheckTwice(hex: string -> nat, tick: Tick, time: nat, batchStart: nat, batchEnd: nat)
        returns (mismatches: seq<Mismatch>, rows: seq<Row>, time': nat)
      requires Distinct(nodes) && Online(nodes, tick.net) && batchStart <= batchEnd
      ensures |rows| == batchEnd + 1 - batchStart && Complete(nodes, rows)
      ensures mismatches == MismatchesOf(nodes, rows, batchStart, |rows|)
      ensures Settled(nodes, tick.net, time, batchStart, batchEnd, mismatches, rows, time')
    {
      hide MismatchesOf, VotersAgree, HashesAgree;
      rows := Fetch(tick.net, time, batchStart, batchEnd);
      time' := time + 1;
      var found := CheckBatch(hex, nodes, rows, batchStart);
      if |found.mismatches| > 0 {
        var isSyncNodeMismatchOnly := SyncNodeMismatchOnly(found.mismatches);
        if isSyncNodeMismatchOnly {
          rows := Fetch(tick.net, time', batchStart, batchEnd);
          time' := time' + 1;
          found := CheckBatch(hex, nodes, rows, batchStart);
        }
      }
      mismatches := found.mismatches;
    }

    /** The chunk loop: check `from..maxBlock` a batch at a time, up to the first mismatch. */
    method CheckChunks(hex: string -> nat, tick: Tick, from: nat, maxBlock: nat)
        returns (mismatches: seq<Mismatch>, time: nat, ghost recent: seq<Check>)
      requires Distinct(nodes) && Sane(nodes, tick) && 1 <= from <= maxBlock <= UMAX && SweepFits(from, maxBlock)
      ensures WellFormed(nodes, recent) && Genuine(tick.net, recent) && mismatches == LastMismatches(nodes, recent)
      ensures mismatches == [] ==> Swept(nodes, recent, from, maxBlock)
      ensures mismatches != [] ==> StoppedAt(nodes, recent, from, maxBlock)
      ensures mismatches != [] ==> 1 <= mismatches[0].block <= maxBlock
    {
      hide Sweeping, WellFormed, Genuine, LastMismatches, StoppedAt, Swept, MismatchesOf, Settled, Online, AnsweredAt;
      hide Complete;
      SweepStarts(nodes, tick.net, from, maxBlock);
      mismatches, time, recent := [], 0, [];
      var batchStart := from;
      while batchStart <= maxBlock
        invariant batchStart == from + BATCH * |recent| <= UMAX && Sweeping(nodes, tick.net, recent, from, maxBlock)
        invariant WellFormed(nodes, recent) && mismatches == LastMismatches(nodes, recent) == []
        decreases maxBlock + BATCH - batchStart
      {
        var batchEnd := (batchStart + BATCH - 1) % TWO64;
        StaysBelow(from, maxBlock, |recent|);
        if batchEnd > maxBlock { batchEnd := maxBlock; }
        var rows;
        ghost var asked := time;
        mismatches, rows, time := CheckTwice(hex, tick, time, batchStart, batchEnd);
        SettledAnswers(nodes, tick.net, asked, batchStart, batchEnd, mismatches, rows, time);
        SweepGoesOn(nodes, tick.net, recent, Check(batchStart, rows), from, maxBlock, time - 1);
        recent := recent + [Check(batchStart, rows)];
        if |mismatches| > 0 { return; }
        batchStart := (batchStart + BATCH) % TWO64;
      }
      SweepEnds(nodes, tick.net, recent, from, maxBlock);
    }

    /** The chunk loop and, after a mismatch, the search back from it. */
    method CheckFrom(hex: string -> nat, tick: Tick, from: nat, maxBlock: nat)
        returns (stop: bool, realFirst: nat, ghost recent: seq<Check>, ghost time: nat)
      requires Distinct(nodes) && Sane(nodes, tick) && 1 <= from <= maxBlock <= UMAX && SweepFits(from, maxBlock)
      ensures WellFormed(nodes, recent) && Genuine(tick.net, recent)
      ensures if stop then StoppedAt(nodes, recent, from, maxBlock) else Swept(nodes, recent, from, maxBlock)
      ensures stop ==> 1 <= realFirst <= maxBlock && Traced(nodes, recent, tick, time, realFirst)
    {
      hide Swept, StoppedAt, WellFormed, LastMismatches, ProbedBad, Genuine;
      var mismatches, moment;
      mismatches, moment, recent := CheckChunks(hex, tick, from, maxBlock);
      stop, realFirst, time := false, 0, moment;
      if |mismatches| == 0 { return; }
      realFirst := SearchBack(hex, tick, moment, mismatches[0].block);
      stop := true;
    }

    method SearchBack(hex: string -> nat, tick: Tick, time: nat, first: nat) returns (realFirst: nat)
      requires Distinct(nodes) && Online(nodes, tick.net) && 1 <= first <= UMAX
      ensures Answering(nodes, Moment(tick.net, time))
      ensures Found(nodes, Moment(tick.net, time), first, realFirst)
    {
      ghost var probed;
      realFirst, probed := BackwardSearch(hex, nodes, Moment(tick.net, time), first);
    }

    method WatchOnce(hex: string -> nat, tick: Tick)
        returns (stop: bool, realFirst: nat, ghost low: nat, ghost high: nat, ghost time: nat)
      requires Valid() && Sane(nodes, tick) && PassFits(lastVerifiedBlock, tick.heads)
      modifies this
      ensures Valid() && old(checks) <= checks
      ensures Responding(tick.heads) < 2 || IsLowest(tick.heads, UMAX) ==>
                !stop && lastVerifiedBlock == old(lastVerifiedBlock) && checks == old(checks)
      ensures Responding(tick.heads) >= 2 && !IsLowest(tick.heads, UMAX) ==>
                && IsLowest(tick.heads, low) && IsHighest(tick.heads, high)
                && Passed(nodes, tick.net, old(lastVerifiedBlock), lastVerifiedBlock, low, high,
                          checks[|old(checks)|..], stop)
      ensures Responding(tick.heads) >= 2 && !IsLowest(tick.heads, UMAX) && old(lastVerifiedBlock) > low > 0 ==>
                if stop then lastVerifiedBlock == low - 1
                else lastVerifiedBlock == low && Swept(nodes, checks[|old(checks)|..], low, high)
      ensures Responding(tick.heads) >= 2 && !IsLowest(tick.heads, UMAX) && old(lastVerifiedBlock) <= low ==>
                if stop || old(lastVerifiedBlock) == high then lastVerifiedBlock == old(lastVerifiedBlock)
                else lastVerifiedBlock == low && Swept(nodes, checks[|old(checks)|..], old(lastVerifiedBlock) + 1, high)
      ensures Responding(tick.heads) >= 2 && old(lastVerifiedBlock) > low == 0 ==>
                lastVerifiedBlock == 0 && (!stop && high > 0 ==> Swept(nodes, checks[|old(checks)|..], 1, high))
      ensures stop ==> Traced(nodes, checks[|old(checks)|..], tick, time, realFirst)
    {
      hide Swept, StoppedAt, Cleared, Online, Traced, SweepFits;
      stop, realFirst, time := false, 0, 0;
      var minBlock, maxBlock, responding := ReadHeads(tick.heads);
      low, high := minBlock, maxBlock;
      if minBlock == UMAX { return; }
      if responding < 2 { return; }
      if lastVerifiedBlock > minBlock {
        if minBlock > 0 {
          lastVerifiedBlock := minBlock - 1;
        } else {
          lastVerifiedBlock := 0;
        }
      }
      var from := 1;
      if lastVerifiedBlock > 0 { from := lastVerifiedBlock + 1; }
      assert StartsAt(old(lastVerifiedBlock), minBlock, from);
      if from > maxBlock {
        assert checks[|old(checks)|..] == [];
        return;
      }
      ghost var recent;
      stop, realFirst, recent, time := CheckFrom(hex, tick, from, maxBlock);
      ChecksAdded(nodes, checks, recent);
      checks := checks + recent;
      CursorKept(nodes, old(checks), checks, lastVerifiedBlock);
      if !stop {
        CursorMoves(nodes, old(checks), checks, lastVerifiedBlock, minBlock, maxBlock);
        lastVerifiedBlock := minBlock;
      }
    }

    /**
     * Pass after pass: the cursor never claims a block that no check cleared, and the watch stops with the first check
     * that shows a mismatch and with no other.
     */
    method RunWatch(hex: string -> nat, ticks: seq<Tick>) returns (stopped: bool)
      requires Valid() && forall i :: 0 <= i < |ticks| ==> Sane(nodes, ticks[i]) && Roomy(ticks[i].heads)
      modifies this
      ensures Valid() && old(checks) <= checks
      ensures !stopped ==> Clean(nodes, checks[|old(checks)|..])
      ensures stopped ==> EndsDirty(nodes, checks[|old(checks)|..])
    {
      hide Traced, Sane, Cleared, AreBatches, Shown;
      stopped := false;
      for i := 0 to |ticks|
        invariant Valid() && old(checks) <= checks
        invariant Clean(nodes, checks[|old(checks)|..])
      {
        ghost var earlier := checks;
        var first;
        ghost var low, high, time;
        RoomyFits(lastVerifiedBlock, ticks[i].heads);
        stopped, first, low, high, time := WatchOnce(hex, ticks[i]);
        assert checks[|old(checks)|..] == earlier[|old(checks)|..] + checks[|earlier|..];
        if stopped {
          EndsDirtyAfter(nodes, earlier[|old(checks)|..], checks[|earlier|..]);
          return;
        }
      }
    }
  }

  // ----- A watch that sees no link at all -----

  /** Every block is answered by every node, and alike where there are two answers. Nothing is said of parent hashes. */
  ghost predicate Alike(nodes: seq<Name>, chain: nat -> Row) {
    forall b: nat :: Has(nodes, chain(b)) && !Disagree(BlockTable.Valid(nodes, chain(b)))
  }

  ghost predicate AllAt(heads: seq<Option<nat>>, i: nat) {
    forall j :: 0 <= j < |heads| ==> heads[j] == Some(i)
  }

  lemma {:induction false} AllRespond(heads: seq<Option<nat>>, i: nat)
    requires AllAt(heads, i)
    ensures Responding(heads) == |heads|
  {
    if heads != [] { AllRespond(heads[..|heads| - 1], i); }
  }

  lemma OneHead(heads: seq<Option<nat>>, i: nat)
    requires |heads| >= 2 && AllAt(heads, i)
    ensures Responding(heads) == |heads|
    ensures forall b: nat :: (IsLowest(heads, b) <==> b == i) && (IsHighest(heads, b) <==> b == i)
  {
    AllRespond(heads, i);
    assert heads[0] in heads;
  }

  /** A pass over one block of such a chain is clean. */
  lemma OneBlockPass(nodes: seq<Name>, chain: nat -> Row, net: Network, b: nat, recent: seq<Check>)
    requires Alike(nodes, chain) && (forall t: nat, c: nat :: net(t, c) == chain(c))
    requires WellFormed(nodes, recent) && Genuine(net, recent) && AreBatches(recent, b, b)
    ensures !EndsDirty(nodes, recent)
  {
    if recent != [] {
      var c := recent[|recent| - 1];
      assert c in recent && IsBatch(recent[0], b, b, 0) && IsBatch(c, b, b, |recent| - 1);
      var t: nat :| AnsweredAt(net, t, c);
      assert c.rows == [chain(b)];
      assert Complete(nodes, [chain(b)]) && Has(nodes, chain(b)) && !Disagree(BlockTable.Valid(nodes, chain(b)));
      ProbeSeesFieldsOnly(nodes, chain, b);
    }
  }

  /**
   * One new block a tick: whatever the parent hashes, the watch never stops and its cursor keeps up, since a check of
   * one block looks at no link.
   */
  method WatchBlockByBlock(hex: string -> nat, nodes: seq<Name>, chain: nat -> Row, n: nat)
      returns (stopped: bool, cursor: nat)
    requires Distinct(nodes) && |nodes| >= 2 && Alike(nodes, chain) && n + BATCH <= UMAX
    ensures !stopped && cursor == n
  {
    var watcher := new Watcher(nodes);
    stopped := false;
    for i := 1 to n + 1
      invariant watcher.Valid() && watcher.nodes == nodes && watcher.lastVerifiedBlock == i - 1 && !stopped
      invariant fresh(watcher)
    {
      var tick := Tick(seq(|nodes|, _ => Some(i)), (t: nat, b: nat) => chain(b));
      ghost var earlier := watcher.checks;
      OneHead(tick.heads, i);
      RoomyFits(i - 1, tick.heads);
      var first;
      ghost var low, high, time;
      stopped, first, low, high, time := watcher.WatchOnce(hex, tick);
      OneBlockPass(nodes, chain, tick.net, i, watcher.checks[|earlier|..]);
    }
    cursor := watcher.lastVerifiedBlock;
  }

  /** A chain in which no block names the block before it as its parent. */
  function Unlinked(nodes: seq<Name>, hash: string, parent: string): nat -> Row {
    (b: nat) => map k | k in nodes :: BlockInfo(hash, parent, "", "", "", "", "", "", "", "", "", 1, 0, "", [])
  }

  lemma {:induction false} OnlyAnswer(nodes: seq<Name>, row: Row, answer: BlockInfo)
    requires forall k :: k in nodes ==> k in row && row[k] == answer
    ensures forall x :: x in BlockTable.Valid(nodes, row) ==> x == answer
  {
    if nodes != [] { OnlyAnswer(nodes[..|nodes| - 1], row, answer); }
  }

  /** Such a chain can be watched to the end: every link is broken, and every block is cleared. */
  method BreaksGoUnseen(hex: string -> nat, nodes: seq<Name>, hash: string, parent: string, n: nat)
      returns (stopped: bool, cursor: nat)
    requires Distinct(nodes) && |nodes| >= 2 && hash != parent && n + BATCH <= UMAX
    ensures !stopped && cursor == n
    ensures forall b: nat, k :: k in nodes ==>
              var before, here := Unlinked(nodes, hash, parent)(b), Unlinked(nodes, hash, parent)(b + 1);
              !before[k].IsError() && !here[k].IsError() && here[k].parentHash != before[k].hash
  {
    var chain := Unlinked(nodes, hash, parent);
    forall b: nat ensures Has(nodes, chain(b)) && !Disagree(BlockTable.Valid(nodes, chain(b))) {
      OnlyAnswer(nodes, chain(b), BlockInfo(hash, parent, "", "", "", "", "", "", "", "", "", 1, 0, "", []));
    }
    stopped, cursor := WatchBlockByBlock(hex, nodes, chain, n);
  }
}
