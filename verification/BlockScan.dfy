/** What the nodes answered for each block, and what a scan is to report about it, without any scan state. */
module BlockTable {
  import opened Words

  type Name = string

  datatype TxEntry = TxEntry(hash: string, groupId: string, transactionIndex: string)

  datatype BlockInfo = BlockInfo(
    hash: string, parentHash: string, stateRoot: string, stakeStatesRoot: string, transactionsRoot: string,
    receiptsRoot: string, timestamp: string, miner: string, epoch: string, globalExecIndex: string, commitIndex: string,
    txCount: nat, sysTxCount: nat, error: string, txOrder: seq<TxEntry>)
  {
    predicate IsError() {
      error != ""
    }
  }

  /** The error text of a node that is up but does not have the block. */
  const NO_SUCH_BLOCK := "(block does not exist)"

  const CHAIN_BROKEN := "CHAIN BROKEN"

  /** One block: the final answer of every node. */
  type Row = map<Name, BlockInfo>

  predicate Complete(nodes: seq<Name>, rows: seq<Row>) {
    forall i, k :: 0 <= i < |rows| && k in nodes ==> k in rows[i]
  }

  // ----- Comparing the nodes -----

  /** What a comparison can name. */
  datatype Field =
    | Hash | ParentHash | StateRoot | StakeStatesRoot | TransactionsRoot | ReceiptsRoot | Timestamp | Miner | Epoch
    | GlobalExecIndex | CommitIndex | TxCount | TxOrder | ChainBroken

  predicate Differ(f: Field, a: BlockInfo, b: BlockInfo) {
    match f
    case Hash => a.hash != b.hash
    case ParentHash => a.parentHash != b.parentHash
    case StateRoot => a.stateRoot != b.stateRoot
    case StakeStatesRoot => a.stakeStatesRoot != b.stakeStatesRoot
    case TransactionsRoot => a.transactionsRoot != b.transactionsRoot
    case ReceiptsRoot => a.receiptsRoot != b.receiptsRoot
    case Timestamp => a.timestamp != b.timestamp
    case Miner => a.miner != b.miner
    case Epoch => a.epoch != b.epoch
    case GlobalExecIndex => a.globalExecIndex != b.globalExecIndex
    case CommitIndex => a.commitIndex != b.commitIndex
    case TxCount => |a.txOrder| != |b.txOrder|
    case TxOrder => |a.txOrder| == |b.txOrder| && a.txOrder != b.txOrder
    case ChainBroken => false
  }

  /** Two answers that agree in everything that is compared. */
  predicate SameView(a: BlockInfo, b: BlockInfo) {
    a.(txCount := 0, sysTxCount := 0, error := "") == b.(txCount := 0, sysTxCount := 0, error := "")
  }

  /** Some two of the answers do not agree: no order of nodes, no reference node. */
  ghost predicate Disagree(valid: seq<BlockInfo>) {
    exists a, b :: a in valid && b in valid && !SameView(a, b)
  }

  predicate DiffersFromFirst(f: Field, valid: seq<BlockInfo>) {
    exists i :: 1 <= i < |valid| && Differ(f, valid[0], valid[i])
  }

  function FieldsAgainstFirst(valid: seq<BlockInfo>): set<Field> {
    set f: Field | DiffersFromFirst(f, valid)
  }

  lemma DifferInSomething(a: BlockInfo, b: BlockInfo)
    ensures SameView(a, b) <==> forall f :: !Differ(f, a, b)
  {
    if forall f :: !Differ(f, a, b) {
      assert !Differ(Hash, a, b) && !Differ(ParentHash, a, b) && !Differ(StateRoot, a, b);
      assert !Differ(StakeStatesRoot, a, b) && !Differ(TransactionsRoot, a, b) && !Differ(ReceiptsRoot, a, b);
      assert !Differ(Timestamp, a, b) && !Differ(Miner, a, b);
      assert !Differ(Epoch, a, b) && !Differ(GlobalExecIndex, a, b) && !Differ(CommitIndex, a, b);
      assert !Differ(TxCount, a, b) && !Differ(TxOrder, a, b);
    }
  }

  /** Comparing everyone with the first valid node finds a difference exactly when some two valid nodes differ. */
  lemma FirstNodeSpeaksForAll(valid: seq<BlockInfo>)
    ensures FieldsAgainstFirst(valid) != {} <==> Disagree(valid)
  {
    if FieldsAgainstFirst(valid) != {} {
      var f :| f in FieldsAgainstFirst(valid);
      var i :| 1 <= i < |valid| && Differ(f, valid[0], valid[i]);
      DifferInSomething(valid[0], valid[i]);
      assert valid[0] in valid && valid[i] in valid;
    }
    if Disagree(valid) {
      var a, b :| a in valid && b in valid && !SameView(a, b);
      var c := if SameView(valid[0], a) then b else a;
      assert !SameView(valid[0], c);
      var i :| 0 <= i < |valid| && valid[i] == c;
      DifferInSomething(valid[0], c);
      var f :| Differ(f, valid[0], valid[i]);
      assert f in FieldsAgainstFirst(valid);
    }
  }

  lemma FieldNamedByAnyPair(valid: seq<BlockInfo>, f: Field)
    requires f != TxOrder
    ensures f in FieldsAgainstFirst(valid) <==> exists x, y :: x in valid && y in valid && Differ(f, x, y)
  {
    if x, y :| x in valid && y in valid && Differ(f, x, y) {
      var c := if Differ(f, valid[0], x) then x else y;
      var i :| 0 <= i < |valid| && valid[i] == c;
      assert Differ(f, valid[0], valid[i]);
    }
  }

  /** Every field name but one is the same in every order of the nodes. */
  lemma NamedFieldIgnoresOrder(a: seq<BlockInfo>, b: seq<BlockInfo>, f: Field)
    requires multiset(a) == multiset(b) && f != TxOrder
    ensures f in FieldsAgainstFirst(a) <==> f in FieldsAgainstFirst(b)
  {
    assert forall x :: x in a <==> x in multiset(a);
    assert forall x :: x in b <==> x in multiset(b);
    FieldNamedByAnyPair(a, f);
    FieldNamedByAnyPair(b, f);
  }

  /** A name is given exactly when two valid answers are in the relation it stands for. */
  lemma NamedIff(valid: seq<BlockInfo>, f: Field, differ: (BlockInfo, BlockInfo) -> bool)
    requires f != TxOrder && forall x, y :: Differ(f, x, y) == differ(x, y)
    ensures f in FieldsAgainstFirst(valid) <==> exists x, y :: x in valid && y in valid && differ(x, y)
  {
    FieldNamedByAnyPair(valid, f);
    hide Differ, FieldsAgainstFirst;
  }

  /** What the names stand for: two valid answers that differ in just that. */
  lemma HashNamesMean(valid: seq<BlockInfo>)
    ensures Hash in FieldsAgainstFirst(valid) <==> exists x, y :: x in valid && y in valid && x.hash != y.hash
    ensures ParentHash in FieldsAgainstFirst(valid)
       <==> exists x, y :: x in valid && y in valid && x.parentHash != y.parentHash
  {
    NamedIff(valid, Hash, (x: BlockInfo, y: BlockInfo) => x.hash != y.hash);
    NamedIff(valid, ParentHash, (x: BlockInfo, y: BlockInfo) => x.parentHash != y.parentHash);
    hide Differ, FieldsAgainstFirst;
  }

  lemma TimeNameMeans(valid: seq<BlockInfo>)
    ensures Timestamp in FieldsAgainstFirst(valid)
       <==> exists x, y :: x in valid && y in valid && x.timestamp != y.timestamp
  {
    NamedIff(valid, Timestamp, (x: BlockInfo, y: BlockInfo) => x.timestamp != y.timestamp);
    hide Differ, FieldsAgainstFirst;
  }

  lemma StateNamesMean(valid: seq<BlockInfo>)
    ensures StateRoot in FieldsAgainstFirst(valid)
       <==> exists x, y :: x in valid && y in valid && x.stateRoot != y.stateRoot
    ensures StakeStatesRoot in FieldsAgainstFirst(valid)
       <==> exists x, y :: x in valid && y in valid && x.stakeStatesRoot != y.stakeStatesRoot
  {
    NamedIff(valid, StateRoot, (x: BlockInfo, y: BlockInfo) => x.stateRoot != y.stateRoot);
    NamedIff(valid, StakeStatesRoot, (x: BlockInfo, y: BlockInfo) => x.stakeStatesRoot != y.stakeStatesRoot);
    hide Differ, FieldsAgainstFirst;
  }

  lemma RootNamesMean(valid: seq<BlockInfo>)
    ensures TransactionsRoot in FieldsAgainstFirst(valid)
       <==> exists x, y :: x in valid && y in valid && x.transactionsRoot != y.transactionsRoot
    ensures ReceiptsRoot in FieldsAgainstFirst(valid)
       <==> exists x, y :: x in valid && y in valid && x.receiptsRoot != y.receiptsRoot
  {
    NamedIff(valid, TransactionsRoot, (x: BlockInfo, y: BlockInfo) => x.transactionsRoot != y.transactionsRoot);
    NamedIff(valid, ReceiptsRoot, (x: BlockInfo, y: BlockInfo) => x.receiptsRoot != y.receiptsRoot);
    hide Differ, FieldsAgainstFirst;
  }

  lemma MakerNamesMean(valid: seq<BlockInfo>)
    ensures Miner in FieldsAgainstFirst(valid) <==> exists x, y :: x in valid && y in valid && x.miner != y.miner
    ensures Epoch in FieldsAgainstFirst(valid) <==> exists x, y :: x in valid && y in valid && x.epoch != y.epoch
  {
    NamedIff(valid, Miner, (x: BlockInfo, y: BlockInfo) => x.miner != y.miner);
    NamedIff(valid, Epoch, (x: BlockInfo, y: BlockInfo) => x.epoch != y.epoch);
    hide Differ, FieldsAgainstFirst;
  }

  lemma IndexNamesMean(valid: seq<BlockInfo>)
    ensures GlobalExecIndex in FieldsAgainstFirst(valid)
       <==> exists x, y :: x in valid && y in valid && x.globalExecIndex != y.globalExecIndex
    ensures CommitIndex in FieldsAgainstFirst(valid)
       <==> exists x, y :: x in valid && y in valid && x.commitIndex != y.commitIndex
  {
    NamedIff(valid, GlobalExecIndex, (x: BlockInfo, y: BlockInfo) => x.globalExecIndex != y.globalExecIndex);
    NamedIff(valid, CommitIndex, (x: BlockInfo, y: BlockInfo) => x.commitIndex != y.commitIndex);
    hide Differ, FieldsAgainstFirst;
  }

  lemma TxCountNameMeans(valid: seq<BlockInfo>)
    ensures TxCount in FieldsAgainstFirst(valid)
       <==> exists x, y :: x in valid && y in valid && |x.txOrder| != |y.txOrder|
  {
    NamedIff(valid, TxCount, (x: BlockInfo, y: BlockInfo) => |x.txOrder| != |y.txOrder|);
    hide Differ, FieldsAgainstFirst;
  }

  lemma TxOrderNameMeans(valid: seq<BlockInfo>)
    ensures TxOrder in FieldsAgainstFirst(valid)
       <==> exists i :: 0 <= i < |valid| && |valid[i].txOrder| == |valid[0].txOrder|
                   && valid[i].txOrder != valid[0].txOrder
    ensures ChainBroken !in FieldsAgainstFirst(valid)
  {
    if i :| 0 <= i < |valid| && |valid[i].txOrder| == |valid[0].txOrder| && valid[i].txOrder != valid[0].txOrder {
      assert 1 <= i < |valid| && Differ(TxOrder, valid[0], valid[i]);
    }
  }

  // ----- What the first valid node alone decides -----

  ghost predicate SameAnswers(a: seq<BlockInfo>, b: seq<BlockInfo>) {
    multiset(a) == multiset(b)
  }

  ghost predicate AllOrNone(valid: seq<BlockInfo>, q: BlockInfo -> bool) {
    (forall x :: x in valid ==> q(x)) || (forall x :: x in valid ==> !q(x))
  }

  lemma MovedToFront(valid: seq<BlockInfo>, x: BlockInfo) returns (moved: seq<BlockInfo>)
    requires x in valid
    ensures SameAnswers(valid, moved) && moved != [] && moved[0] == x
  {
    var i :| 0 <= i < |valid| && valid[i] == x;
    moved := [x] + valid[..i] + valid[i + 1..];
    assert valid == valid[..i] + [x] + valid[i + 1..];
  }

  /** A property read off the first answer is the same in every order exactly when all answers have it or none. */
  lemma FirstDecides(valid: seq<BlockInfo>, q: BlockInfo -> bool)
    requires valid != []
    ensures (forall b :: SameAnswers(valid, b) ==> b != [] && q(b[0]) == q(valid[0])) <==> AllOrNone(valid, q)
  {
    forall b | SameAnswers(valid, b) ensures b != [] && b[0] in valid {
      assert valid[0] in multiset(b);
      assert b[0] in multiset(b);
    }
    if forall b :: SameAnswers(valid, b) ==> b != [] && q(b[0]) == q(valid[0]) {
      forall x | x in valid ensures q(x) == q(valid[0]) {
        var moved := MovedToFront(valid, x);
      }
    }
  }

  /** Some answer has as many transactions, but not the same list of them. */
  ghost predicate HasRival(valid: seq<BlockInfo>, x: BlockInfo) {
    exists y :: y in valid && Differ(TxOrder, x, y)
  }

  ghost predicate NamesTxOrder(valid: seq<BlockInfo>) {
    TxOrder in FieldsAgainstFirst(valid)
  }

  lemma NamedByFirstsRival(valid: seq<BlockInfo>)
    requires valid != []
    ensures NamesTxOrder(valid) <==> HasRival(valid, valid[0])
  {
    if y :| y in valid && Differ(TxOrder, valid[0], y) {
      var i :| 0 <= i < |valid| && valid[i] == y;
      assert DiffersFromFirst(TxOrder, valid);
    }
  }

  /**
   * The one name that can depend on the order of the nodes. It does not exactly when every valid answer has a rival,
   * one with as many transactions but another list, or none has.
   */
  lemma TxOrderNameStableIff(valid: seq<BlockInfo>)
    ensures (forall b :: SameAnswers(valid, b) ==> NamesTxOrder(b) == NamesTxOrder(valid))
       <==> AllOrNone(valid, x => HasRival(valid, x))
  {
    if valid == [] {
      assert forall b :: SameAnswers(valid, b) ==> |multiset(b)| == 0 && b == [];
    } else {
      var q := x => HasRival(valid, x);
      NamedByFirstsRival(valid);
      forall b | SameAnswers(valid, b) ensures b != [] && NamesTxOrder(b) == q(b[0]) {
        assert valid[0] in multiset(b);
        NamedByFirstsRival(b);
        assert forall y :: y in b <==> y in multiset(b);
        assert forall y :: y in valid <==> y in multiset(valid);
      }
      FirstDecides(valid, q);
    }
  }

  ghost predicate EqualCounts(valid: seq<BlockInfo>) {
    forall x, y :: x in valid && y in valid ==> |x.txOrder| == |y.txOrder|
  }

  lemma RivalsForAll(valid: seq<BlockInfo>, x: BlockInfo, y: BlockInfo)
    requires EqualCounts(valid) && x in valid && y in valid && HasRival(valid, x)
    ensures HasRival(valid, y)
  {
    var r :| r in valid && Differ(TxOrder, x, r);
    assert Differ(TxOrder, y, x) || Differ(TxOrder, y, r);
  }

  /** So it does not while all nodes have the same number of transactions. */
  lemma EqualCountsFixTheName(valid: seq<BlockInfo>, b: seq<BlockInfo>)
    requires EqualCounts(valid) && SameAnswers(valid, b)
    ensures NamesTxOrder(b) == NamesTxOrder(valid)
  {
    hide HasRival, NamesTxOrder, EqualCounts;
    TxOrderNameStableIff(valid);
    forall x, y | x in valid && y in valid && HasRival(valid, x) ensures HasRival(valid, y) {
      RivalsForAll(valid, x, y);
    }
  }

  /** And it can, while they have not: three answers of which two are rivals and the third has none. */
  lemma TxOrderNameDependsOnOrder(b: BlockInfo, t: TxEntry, u: TxEntry)
    requires t != u
    ensures var none, one, other := b.(txOrder := []), b.(txOrder := [t]), b.(txOrder := [u]);
            && TxOrder !in FieldsAgainstFirst([none, one, other])
            && TxOrder in FieldsAgainstFirst([one, none, other])
  {
    var none, one, other := b.(txOrder := []), b.(txOrder := [t]), b.(txOrder := [u]);
    assert Differ(TxOrder, [one, none, other][0], [one, none, other][2]);
  }

  predicate NoTransactions(x: BlockInfo) {
    x.txCount == 0 && x.sysTxCount == 0
  }

  /** Whether a block is listed as empty is the same in every order exactly when all valid answers are empty or none. */
  lemma EmptyListingStableIff(valid: seq<BlockInfo>)
    requires valid != []
    ensures (forall b :: SameAnswers(valid, b) ==> b != [] && NoTransactions(b[0]) == NoTransactions(valid[0]))
       <==> AllOrNone(valid, NoTransactions)
  {
    FirstDecides(valid, NoTransactions);
  }

  /** Which agreement of the nodes does not give: the count of system transactions is never compared. */
  lemma EmptyListingDependsOnOrder(b: BlockInfo)
    ensures var none, some := b.(txCount := 0, sysTxCount := 0), b.(txCount := 0, sysTxCount := 1);
            && !Disagree([none, some]) && SameAnswers([none, some], [some, none])
            && NoTransactions([none, some][0]) && !NoTransactions([some, none][0])
  {
  }

  // ----- The verdict on a block -----

  function Valid(nodes: seq<Name>, row: Row): seq<BlockInfo>
    requires forall k :: k in nodes ==> k in row
  {
    if nodes == [] then []
    else
      var n := |nodes| - 1;
      Valid(nodes[..n], row) + (if row[nodes[n]].IsError() then [] else [row[nodes[n]]])
  }

  /** How many nodes say they do not have the block. */
  function Absent(nodes: seq<Name>, row: Row): nat
    requires forall k :: k in nodes ==> k in row
  {
    if nodes == [] then 0
    else
      var n := |nodes| - 1;
      Absent(nodes[..n], row) + (if row[nodes[n]].error == NO_SUCH_BLOCK then 1 else 0)
  }

  predicate Compared(nodes: seq<Name>, rows: seq<Row>, i: nat)
    requires Complete(nodes, rows) && i < |rows|
  {
    |Valid(nodes, rows[i])| >= 2
  }

  /** Node `k` is valid at this block and the one before, and the link between the two does not hold. */
  predicate Broken(nodes: seq<Name>, rows: seq<Row>, i: nat, k: Name)
    requires Complete(nodes, rows) && i < |rows| && k in nodes
  {
    && i > 0 && Compared(nodes, rows, i)
    && !rows[i - 1][k].IsError() && !rows[i][k].IsError()
    && rows[i][k].parentHash != rows[i - 1][k].hash
  }

  datatype Verdict = NilBlock | Skipped | Matched | Mismatched

  ghost function VerdictAt(nodes: seq<Name>, rows: seq<Row>, i: nat): Verdict
    requires Complete(nodes, rows) && i < |rows|
  {
    var valid := Valid(nodes, rows[i]);
    if |valid| == 0 && Absent(nodes, rows[i]) > 0 then NilBlock
    else if |valid| < 2 then Skipped
    else if Disagree(valid) || exists k :: k in nodes && Broken(nodes, rows, i, k) then Mismatched
    else Matched
  }

  // ----- The verdicts in plain terms -----

  lemma {:induction false} ValidMeans(nodes: seq<Name>, row: Row, x: BlockInfo)
    requires forall k :: k in nodes ==> k in row
    ensures x in Valid(nodes, row) <==> exists k :: k in nodes && row[k] == x && x.error == ""
  {
    if nodes != [] {
      var n := |nodes| - 1;
      ValidMeans(nodes[..n], row, x);
      assert forall k :: k in nodes <==> k in nodes[..n] || k == nodes[n];
    }
  }

  /** Two nodes, in different places, have an answer. */
  ghost predicate TwoAnswer(nodes: seq<Name>, row: Row)
    requires forall k :: k in nodes ==> k in row
  {
    exists a, b :: 0 <= a < b < |nodes| && row[nodes[a]].error == "" && row[nodes[b]].error == ""
  }

  lemma {:induction false} AnyAnswers(nodes: seq<Name>, row: Row)
    requires forall k :: k in nodes ==> k in row
    ensures |Valid(nodes, row)| >= 1 <==> exists k :: k in nodes && row[k].error == ""
    ensures Absent(nodes, row) >= 1 <==> exists k :: k in nodes && row[k].error == "(block does not exist)"
  {
    if nodes != [] {
      var n := |nodes| - 1;
      AnyAnswers(nodes[..n], row);
      assert forall k :: k in nodes <==> k in nodes[..n] || k == nodes[n];
    }
  }

  lemma TwoAnswerGrows(nodes: seq<Name>, row: Row)
    requires nodes != [] && forall k :: k in nodes ==> k in row
    ensures var rest, last := nodes[..|nodes| - 1], nodes[|nodes| - 1];
            TwoAnswer(nodes, row)
            <==> TwoAnswer(rest, row) || (row[last].error == "" && exists k :: k in rest && row[k].error == "")
  {
    var n := |nodes| - 1;
    var rest := nodes[..n];
    assert forall a :: 0 <= a < n ==> rest[a] == nodes[a];
    if a, b :| 0 <= a < b < |nodes| && row[nodes[a]].error == "" && row[nodes[b]].error == "" {
      assert rest[a] in rest;
      if b < n { assert row[rest[a]].error == "" && row[rest[b]].error == ""; }
    }
    if a, b :| 0 <= a < b < n && row[rest[a]].error == "" && row[rest[b]].error == "" {
      assert row[nodes[a]].error == "" && row[nodes[b]].error == "";
    }
    if row[nodes[n]].error == "" {
      if k :| k in rest && row[k].error == "" {
        var a :| 0 <= a < n && rest[a] == k;
        assert row[nodes[a]].error == "";
      }
    }
  }

  lemma {:induction false} TwoValid(nodes: seq<Name>, row: Row)
    requires forall k :: k in nodes ==> k in row
    ensures |Valid(nodes, row)| >= 2 <==> TwoAnswer(nodes, row)
  {
    if nodes != [] {
      var n := |nodes| - 1;
      TwoValid(nodes[..n], row);
      AnyAnswers(nodes[..n], row);
      TwoAnswerGrows(nodes, row);
      hide TwoAnswer;
    }
  }

  /** Two answers that differ in something that is compared. */
  predicate Apart(x: BlockInfo, y: BlockInfo) {
    || x.hash != y.hash || x.parentHash != y.parentHash || x.stateRoot != y.stateRoot
    || x.stakeStatesRoot != y.stakeStatesRoot || x.transactionsRoot != y.transactionsRoot
    || x.receiptsRoot != y.receiptsRoot || x.timestamp != y.timestamp || x.miner != y.miner || x.epoch != y.epoch
    || x.globalExecIndex != y.globalExecIndex || x.commitIndex != y.commitIndex || x.txOrder != y.txOrder
  }

  ghost predicate NodesApart(nodes: seq<Name>, row: Row)
    requires forall k :: k in nodes ==> k in row
  {
    exists j, k :: j in nodes && k in nodes && row[j].error == "" && row[k].error == "" && Apart(row[j], row[k])
  }

  lemma DisagreeMeans(nodes: seq<Name>, row: Row)
    requires forall k :: k in nodes ==> k in row
    ensures Disagree(Valid(nodes, row)) <==> NodesApart(nodes, row)
  {
    var valid := Valid(nodes, row);
    forall x ensures x in valid <==> exists k :: k in nodes && row[k] == x && x.error == "" {
      ValidMeans(nodes, row, x);
    }
    hide Valid;
    if a, b :| a in valid && b in valid && !SameView(a, b) {
      assert Apart(a, b);
    }
    if j, k :| j in nodes && k in nodes && row[j].error == "" && row[k].error == "" && Apart(row[j], row[k]) {
      assert row[j] in valid && row[k] in valid && !SameView(row[j], row[k]);
    }
  }

  /** Some node answers here and right before, and does not name its hash there as the parent here. */
  ghost predicate SomeLinkFails(nodes: seq<Name>, rows: seq<Row>, i: nat)
    requires Complete(nodes, rows) && i < |rows|
  {
    i > 0 && exists k :: k in nodes && rows[i - 1][k].error == "" && rows[i][k].error == ""
                    && rows[i][k].parentHash != rows[i - 1][k].hash
  }

  /** What each verdict on a block means, node by node. */
  lemma VerdictMeans(nodes: seq<Name>, rows: seq<Row>, i: nat)
    requires Complete(nodes, rows) && i < |rows|
    ensures VerdictAt(nodes, rows, i) == NilBlock
       <==> (forall k :: k in nodes ==> rows[i][k].error != "")
            && exists k :: k in nodes && rows[i][k].error == "(block does not exist)"
    ensures VerdictAt(nodes, rows, i) == Skipped
       <==> !TwoAnswer(nodes, rows[i]) && VerdictAt(nodes, rows, i) != NilBlock
    ensures VerdictAt(nodes, rows, i) == Mismatched
       <==> TwoAnswer(nodes, rows[i]) && (NodesApart(nodes, rows[i]) || SomeLinkFails(nodes, rows, i))
  {
    AnyAnswers(nodes, rows[i]);
    TwoValid(nodes, rows[i]);
    DisagreeMeans(nodes, rows[i]);
    hide Valid, Absent, Disagree, TwoAnswer, NodesApart;
  }

  /** The numbers of the blocks with a verdict, in order. */
  ghost function BlocksWith(v: Verdict, nodes: seq<Name>, rows: seq<Row>, from: nat, n: nat): seq<nat>
    requires Complete(nodes, rows) && n <= |rows|
  {
    if n == 0 then []
    else BlocksWith(v, nodes, rows, from, n - 1) + (if VerdictAt(nodes, rows, n - 1) == v then [from + n - 1] else [])
  }

  ghost predicate Ascending(s: seq<nat>) {
    forall i, j :: 0 <= i < j < |s| ==> s[i] < s[j]
  }

  lemma {:induction false} BlocksWithContents(v: Verdict, nodes: seq<Name>, rows: seq<Row>, from: nat, n: nat)
    requires Complete(nodes, rows) && n <= |rows|
    ensures forall b :: b in BlocksWith(v, nodes, rows, from, n)
                   <==> from <= b < from + n && VerdictAt(nodes, rows, b - from) == v
    ensures Ascending(BlocksWith(v, nodes, rows, from, n))
  {
    hide VerdictAt;
    if n > 0 {
      BlocksWithContents(v, nodes, rows, from, n - 1);
      var s := BlocksWith(v, nodes, rows, from, n - 1);
      forall i | 0 <= i < |s| ensures s[i] < from + n - 1 {
        assert s[i] in s;
      }
    }
  }

  /** Every block gets exactly one verdict: the four counts add up to the length of the range. */
  lemma {:induction false} VerdictsPartition(nodes: seq<Name>, rows: seq<Row>, from: nat, n: nat)
    requires Complete(nodes, rows) && n <= |rows|
    ensures |BlocksWith(NilBlock, nodes, rows, from, n)| + |BlocksWith(Skipped, nodes, rows, from, n)|
          + |BlocksWith(Matched, nodes, rows, from, n)| + |BlocksWith(Mismatched, nodes, rows, from, n)| == n
  {
    hide VerdictAt;
    if n > 0 { VerdictsPartition(nodes, rows, from, n - 1); }
  }

  // ----- The order of the nodes -----

  predicate Has(nodes: seq<Name>, row: Row) {
    forall k :: k in nodes ==> k in row
  }

  lemma HasConcat(a: seq<Name>, b: seq<Name>, row: Row)
    ensures Has(a + b, row) <==> Has(a, row) && Has(b, row)
  {
    assert forall k :: k in a + b <==> k in a || k in b;
  }

  lemma {:induction false} AnswersConcat(a: seq<Name>, b: seq<Name>, row: Row)
    requires Has(a, row) && Has(b, row)
    ensures Has(a + b, row) && Valid(a + b, row) == Valid(a, row) + Valid(b, row)
    ensures Absent(a + b, row) == Absent(a, row) + Absent(b, row)
  {
    HasConcat(a, b, row);
    if b == [] {
      assert a + b == a;
    } else {
      var n := |b| - 1;
      assert b == b[..n] + [b[n]];
      HasConcat(b[..n], [b[n]], row);
      hide Has;
      AnswersConcat(a, b[..n], row);
      assert (a + b)[..|a + b| - 1] == a + b[..n] && (a + b)[|a + b| - 1] == b[n];
    }
  }

  lemma Swapped<T>(a: seq<T>, b: seq<T>, c: seq<T>)
    ensures multiset(a + b + c) == multiset(a + c + b)
  {
  }

  /** Where in the list a node stands does not matter. */
  lemma NodeMoves(a: seq<Name>, k: Name, b: seq<Name>, row: Row)
    requires Has(a, row) && Has([k], row) && Has(b, row)
    ensures Has(a + [k] + b, row) && Has(a + b + [k], row)
    ensures SameAnswers(Valid(a + [k] + b, row), Valid(a + b + [k], row))
    ensures Absent(a + [k] + b, row) == Absent(a + b + [k], row)
  {
    Swapped(Valid(a, row), Valid([k], row), Valid(b, row));
    hide Has, Valid, Absent;
    AnswersConcat(a, [k], row);
    AnswersConcat(a + [k], b, row);
    AnswersConcat(a, b, row);
    AnswersConcat(a + b, [k], row);
  }

  lemma OneMoreNode(a: seq<Name>, b: seq<Name>, k: Name, row: Row)
    requires Has(a, row) && Has(b, row) && Has([k], row)
    requires SameAnswers(Valid(a, row), Valid(b, row)) && Absent(a, row) == Absent(b, row)
    ensures Has(a + [k], row) && Has(b + [k], row)
    ensures SameAnswers(Valid(a + [k], row), Valid(b + [k], row)) && Absent(a + [k], row) == Absent(b + [k], row)
  {
    hide Has, Valid, Absent;
    AnswersConcat(a, [k], row);
    AnswersConcat(b, [k], row);
  }

  lemma SplitAt(nodes: seq<Name>, k: Name) returns (a: seq<Name>, b: seq<Name>)
    requires k in multiset(nodes)
    ensures nodes == a + [k] + b && multiset(a + b) == multiset(nodes) - multiset{k}
  {
    var i :| 0 <= i < |nodes| && nodes[i] == k;
    a, b := nodes[..i], nodes[i + 1..];
    assert nodes == a + [k] + b;
  }

  /** A permutation of the nodes permutes the valid answers. */
  lemma {:induction false} AnswersPermute(nodes: seq<Name>, other: seq<Name>, row: Row)
    requires multiset(nodes) == multiset(other) && Has(nodes, row) && Has(other, row)
    ensures SameAnswers(Valid(nodes, row), Valid(other, row)) && Absent(nodes, row) == Absent(other, row)
  {
    if nodes == [] {
      assert |multiset(other)| == 0 && other == [];
    } else {
      var n := |nodes| - 1;
      var k := nodes[n];
      assert nodes == nodes[..n] + [k];
      var a, b := SplitAt(other, k);
      HasConcat(nodes[..n], [k], row);
      HasConcat(a + [k], b, row);
      HasConcat(a, [k], row);
      HasConcat(a, b, row);
      hide Valid, Absent, Has;
      AnswersPermute(nodes[..n], a + b, row);
      OneMoreNode(nodes[..n], a + b, k, row);
      NodeMoves(a, k, b, row);
    }
  }

  lemma OtherNamesComplete(nodes: seq<Name>, other: seq<Name>, rows: seq<Row>)
    requires multiset(nodes) == multiset(other) && Complete(nodes, rows)
    ensures Complete(other, rows) && forall k :: k in nodes <==> k in other
  {
    assert forall k :: k in nodes <==> k in multiset(nodes);
    assert forall k :: k in other <==> k in multiset(other);
  }

  lemma DisagreeIgnoresOrder(a: seq<BlockInfo>, b: seq<BlockInfo>)
    requires SameAnswers(a, b)
    ensures |a| == |b| && (Disagree(a) <==> Disagree(b))
  {
    hide SameView;
    assert |a| == |multiset(a)| == |multiset(b)| == |b|;
    assert forall x :: x in a <==> x in multiset(a);
    assert forall x :: x in b <==> x in multiset(b);
  }

  /** The verdict on a block is the same in every order of the nodes. */
  lemma VerdictIgnoresOrder(nodes: seq<Name>, other: seq<Name>, rows: seq<Row>, i: nat)
    requires multiset(nodes) == multiset(other) && Complete(nodes, rows) && i < |rows|
    ensures Complete(other, rows) && VerdictAt(nodes, rows, i) == VerdictAt(other, rows, i)
  {
    OtherNamesComplete(nodes, other, rows);
    AnswersPermute(nodes, other, rows[i]);
    hide Valid, Absent, SameAnswers, Disagree;
    DisagreeIgnoresOrder(Valid(nodes, rows[i]), Valid(other, rows[i]));
    assert forall k :: k in nodes ==> (Broken(nodes, rows, i, k) <==> Broken(other, rows, i, k));
  }

  /** And so are the lists of matched, mismatched, skipped and nil blocks. */
  lemma {:induction false} ListsIgnoreOrder(v: Verdict, nodes: seq<Name>, other: seq<Name>, rows: seq<Row>,
                                            from: nat, n: nat)
    requires multiset(nodes) == multiset(other) && Complete(nodes, rows) && n <= |rows|
    ensures Complete(other, rows) && BlocksWith(v, nodes, rows, from, n) == BlocksWith(v, other, rows, from, n)
  {
    hide VerdictAt;
    OtherNamesComplete(nodes, other, rows);
    if n > 0 {
      ListsIgnoreOrder(v, nodes, other, rows, from, n - 1);
      VerdictIgnoresOrder(nodes, other, rows, n - 1);
    }
  }

  /** A range of one block never shows a broken link: its verdict is the comparison's alone. */
  lemma SingleBlockSeesNoBreak(nodes: seq<Name>, row: Row)
    requires Complete(nodes, [row]) && forall k :: k in nodes ==> k in row
    ensures VerdictAt(nodes, [row], 0) == Mismatched <==> |Valid(nodes, row)| >= 2 && Disagree(Valid(nodes, row))
  {
    assert forall k :: k in nodes ==> !Broken(nodes, [row], 0, k);
  }

  // ----- One node over the compared blocks -----

  /** The row as reported: broken links marked as errors. */
  function Marked(nodes: seq<Name>, rows: seq<Row>, i: nat): Row
    requires Complete(nodes, rows) && i < |rows|
  {
    map k | k in rows[i] ::
      if k in nodes && Broken(nodes, rows, i, k) then rows[i][k].(error := CHAIN_BROKEN) else rows[i][k]
  }

  datatype Entry = Gap | Seen(timestamp: nat, gei: nat, epoch: nat, stateRoot: string)

  /** What a block shows of one node; `hex` reads the node's hexadecimal numbers. */
  function EntryOf(hex: string -> nat, b: BlockInfo): Entry {
    if b.IsError() then Gap else Seen(hex(b.timestamp), hex(b.globalExecIndex), hex(b.epoch), b.stateRoot)
  }

  /** The entries of node `k` at the compared blocks before block `n`. */
  function History(hex: string -> nat, nodes: seq<Name>, rows: seq<Row>, k: Name, n: nat): seq<Entry>
    requires Complete(nodes, rows) && n <= |rows| && k in nodes
  {
    if n == 0 then []
    else
      History(hex, nodes, rows, k, n - 1)
      + (if Compared(nodes, rows, n - 1) then [EntryOf(hex, Marked(nodes, rows, n - 1)[k])] else [])
  }

  predicate SameState(a: Entry, b: Entry) {
    a.Seen? && b.Seen? && a.stateRoot == b.stateRoot && a.epoch == b.epoch
  }

  /** How many entries right before the last one show the same state root and epoch as it. */
  function RunLength(h: seq<Entry>): nat
    requires h != []
  {
    var n := |h| - 1;
    if n > 0 && SameState(h[n - 1], h[n]) then 1 + RunLength(h[..n]) else 0
  }

  lemma {:induction false} RunLengthIsMaximal(h: seq<Entry>)
    requires h != []
    ensures var m, n := RunLength(h), |h| - 1;
            && m <= n
            && (forall j :: n - m <= j < n ==> SameState(h[j], h[n]))
            && (m < n ==> !SameState(h[n - m - 1], h[n]))
  {
    var n := |h| - 1;
    if n > 0 && SameState(h[n - 1], h[n]) { RunLengthIsMaximal(h[..n]); }
  }

  datatype AlarmKind = TimestampRegression | GeiRegression | EpochRegression | EpochJump | StateRootFreeze

  /** The time goes back by more than half a minute. */
  predicate TimeFalls(a: Entry, b: Entry) {
    a.Seen? && b.Seen? && 0 < b.timestamp && a.timestamp - b.timestamp > 30
  }

  /** The global execution index does not grow. */
  predicate GeiStalls(a: Entry, b: Entry) {
    a.Seen? && b.Seen? && 0 < b.gei <= a.gei
  }

  /** The epoch goes back. */
  predicate EpochFalls(a: Entry, b: Entry) {
    a.Seen? && b.Seen? && 0 < b.epoch < a.epoch
  }

  /** The epoch goes on by more than one. */
  predicate EpochSkips(a: Entry, b: Entry) {
    a.Seen? && b.Seen? && 0 < a.epoch <= b.epoch && (a.epoch + 1) % TWO64 < b.epoch
  }

  /** The state has stood for five entries before this one. */
  predicate StateStands(h: seq<Entry>, cur: Entry) {
    h != [] && h[|h| - 1].Seen? && cur.Seen? && RunLength(h + [cur]) >= 5
  }

  function Maybe(b: bool, kind: AlarmKind): (s: seq<AlarmKind>)
    ensures forall x :: x in s <==> b && x == kind
  {
    if b then [kind] else []
  }

  /** What the anomaly checks find in one node's entry, given its earlier entries. */
  function AlarmsOf(h: seq<Entry>, cur: Entry, txCount: nat): seq<AlarmKind> {
    if h == [] then []
    else
      var prev := h[|h| - 1];
      Maybe(TimeFalls(prev, cur), TimestampRegression) + Maybe(GeiStalls(prev, cur), GeiRegression)
      + Maybe(EpochFalls(prev, cur), EpochRegression) + Maybe(EpochSkips(prev, cur), EpochJump)
      + Maybe(StateStands(h, cur) && txCount > 0, StateRootFreeze)
  }

  /** The freeze alarm: five compared entries in a row right before, all with this state root and epoch. */
  lemma FreezeMeansFiveEqual(h: seq<Entry>, cur: Entry, txCount: nat)
    ensures StateRootFreeze in AlarmsOf(h, cur, txCount)
       <==> txCount > 0 && |h| >= 5 && forall j :: |h| - 5 <= j < |h| ==> SameState(h[j], cur)
  {
    var g := h + [cur];
    RunLengthIsMaximal(g);
    if |h| >= 5 && forall j :: |h| - 5 <= j < |h| ==> SameState(h[j], cur) {
      assert forall j :: |h| - 5 <= j < |h| ==> SameState(g[j], g[|h|]);
      assert SameState(h[|h| - 1], cur);
    }
  }

  datatype Alarm = Alarm(kind: AlarmKind, block: nat, node: Name)

  function Tagged(kinds: seq<AlarmKind>, block: nat, node: Name): (r: seq<Alarm>)
    ensures forall a :: a in r <==> a.block == block && a.node == node && a.kind in kinds
  {
    if kinds == [] then [] else [Alarm(kinds[0], block, node)] + Tagged(kinds[1..], block, node)
  }

  /** What the checks find in node `k` at block `i`, given its earlier compared blocks. */
  function KindsAt(hex: string -> nat, nodes: seq<Name>, rows: seq<Row>, i: nat, k: Name): seq<AlarmKind>
    requires Complete(nodes, rows) && i < |rows| && k in nodes
  {
    AlarmsOf(History(hex, nodes, rows, k, i), EntryOf(hex, Marked(nodes, rows, i)[k]), rows[i][k].txCount)
  }

  /** The alarms at one compared block from the first `m` nodes. */
  function AlarmsAt(hex: string -> nat, nodes: seq<Name>, rows: seq<Row>, from: nat, i: nat, m: nat): seq<Alarm>
    requires Complete(nodes, rows) && i < |rows| && m <= |nodes|
  {
    if m == 0 then []
    else
      var k := nodes[m - 1];
      AlarmsAt(hex, nodes, rows, from, i, m - 1)
      + Tagged(KindsAt(hex, nodes, rows, i, k), from + i, k)
  }

  function AlarmsUpTo(hex: string -> nat, nodes: seq<Name>, rows: seq<Row>, from: nat, n: nat): seq<Alarm>
    requires Complete(nodes, rows) && n <= |rows|
  {
    if n == 0 then []
    else
      AlarmsUpTo(hex, nodes, rows, from, n - 1)
      + (if Compared(nodes, rows, n - 1) then AlarmsAt(hex, nodes, rows, from, n - 1, |nodes|) else [])
  }
}

/** The scan itself: one pass with mutable state, proved to report what the table says. */
module BlockChecker {
  import opened BlockTable
  import opened Words

  datatype Mismatch = Mismatch(block: nat, blocks: Row, fields: set<Field>)

  datatype Report = Report(mismatches: seq<Mismatch>, matchCount: nat, errorCount: nat, skipCount: nat,
                           nilBlocks: seq<nat>, emptyBlocks: seq<nat>, alarms: seq<Alarm>)

  // ----- What a report is to hold -----

  ghost predicate AnyBroken(nodes: seq<Name>, rows: seq<Row>, i: nat)
    requires Complete(nodes, rows) && i < |rows|
  {
    exists k :: k in nodes && Broken(nodes, rows, i, k)
  }

  ghost function MismatchAt(nodes: seq<Name>, rows: seq<Row>, from: nat, i: nat): Mismatch
    requires Complete(nodes, rows) && i < |rows|
  {
    Mismatch(from + i, Marked(nodes, rows, i),
             FieldsAgainstFirst(Valid(nodes, rows[i])) + (if AnyBroken(nodes, rows, i) then {ChainBroken} else {}))
  }

  ghost function MismatchesOf(nodes: seq<Name>, rows: seq<Row>, from: nat, n: nat): (r: seq<Mismatch>)
    requires Complete(nodes, rows) && n <= |rows|
    ensures |r| == |BlocksWith(Mismatched, nodes, rows, from, n)|
    ensures forall i :: 0 <= i < |r| ==> r[i].block == BlocksWith(Mismatched, nodes, rows, from, n)[i]
  {
    if n == 0 then []
    else MismatchesOf(nodes, rows, from, n - 1)
         + (if VerdictAt(nodes, rows, n - 1) == Mismatched then [MismatchAt(nodes, rows, from, n - 1)] else [])
  }

  predicate HasError(nodes: seq<Name>, row: Row)
    requires forall k :: k in nodes ==> k in row
  {
    exists k :: k in nodes && row[k].IsError()
  }

  function ErrorRows(nodes: seq<Name>, rows: seq<Row>, n: nat): nat
    requires Complete(nodes, rows) && n <= |rows|
  {
    if n == 0 then 0 else ErrorRows(nodes, rows, n - 1) + (if HasError(nodes, rows[n - 1]) then 1 else 0)
  }

  /** Compared blocks in which the first valid node has no transaction of either kind. */
  function EmptyBlocks(nodes: seq<Name>, rows: seq<Row>, from: nat, n: nat): seq<nat>
    requires Complete(nodes, rows) && n <= |rows|
  {
    if n == 0 then []
    else
      var valid := Valid(nodes, rows[n - 1]);
      EmptyBlocks(nodes, rows, from, n - 1)
      + (if |valid| >= 2 && NoTransactions(valid[0]) then [from + n - 1] else [])
  }

  ghost predicate Reports(hex: string -> nat, nodes: seq<Name>, rows: seq<Row>, from: nat, n: nat, r: Report)
    requires Complete(nodes, rows) && n <= |rows|
  {
    && r.mismatches == MismatchesOf(nodes, rows, from, n)
    && r.matchCount == |BlocksWith(Matched, nodes, rows, from, n)|
    && r.skipCount == |BlocksWith(Skipped, nodes, rows, from, n)|
    && r.nilBlocks == BlocksWith(NilBlock, nodes, rows, from, n)
    && r.errorCount == ErrorRows(nodes, rows, n)
    && r.emptyBlocks == EmptyBlocks(nodes, rows, from, n)
    && r.alarms == AlarmsUpTo(hex, nodes, rows, from, n)
  }

  // ----- The parts of the pass -----

  method CollectValid(nodes: seq<Name>, row: Row) returns (valid: seq<BlockInfo>, missing: nat)
    requires forall k :: k in nodes ==> k in row
    ensures valid == Valid(nodes, row) && missing == Absent(nodes, row)
  {
    valid, missing := [], 0;
    for i := 0 to |nodes|
      invariant valid == Valid(nodes[..i], row) && missing == Absent(nodes[..i], row)
    {
      assert nodes[..i + 1][..i] == nodes[..i];
      var bi := row[nodes[i]];
      if !bi.IsError() {
        valid := valid + [bi];
      } else if bi.error == NO_SUCH_BLOCK {
        missing := missing + 1;
      }
    }
    assert nodes[..|nodes|] == nodes;
  }

  const CHAIN_FIELDS := {Hash, ParentHash, StateRoot, StakeStatesRoot, TransactionsRoot, ReceiptsRoot}

  method CompareChain(b: BlockInfo, first: BlockInfo, before: set<Field>) returns (fields: set<Field>)
    ensures forall f :: f in fields <==> f in before || (f in CHAIN_FIELDS && Differ(f, first, b))
  {
    fields := before;
    if b.hash != first.hash { fields := fields + {Hash}; }
    if b.parentHash != first.parentHash { fields := fields + {ParentHash}; }
    if b.stateRoot != first.stateRoot { fields := fields + {StateRoot}; }
    if b.stakeStatesRoot != first.stakeStatesRoot { fields := fields + {StakeStatesRoot}; }
    if b.transactionsRoot != first.transactionsRoot { fields := fields + {TransactionsRoot}; }
    if b.receiptsRoot != first.receiptsRoot { fields := fields + {ReceiptsRoot}; }
  }

  method SameTxOrder(b: BlockInfo, first: BlockInfo) returns (same: bool)
    ensures |b.txOrder| == |first.txOrder| ==> same == (b.txOrder == first.txOrder)
  {
    same := true;
    if |b.txOrder| == |first.txOrder| {
      for j := 0 to |first.txOrder|
        invariant b.txOrder[..j] == first.txOrder[..j]
      {
        if b.txOrder[j] != first.txOrder[j] { return false; }
      }
      assert b.txOrder[..|b.txOrder|] == b.txOrder && first.txOrder[..|b.txOrder|] == first.txOrder;
    }
  }

  method CompareRest(b: BlockInfo, first: BlockInfo, before: set<Field>) returns (fields: set<Field>)
    ensures forall f :: f in fields <==> f in before || (f !in CHAIN_FIELDS && Differ(f, first, b))
  {
    fields := before;
    if b.timestamp != first.timestamp { fields := fields + {Timestamp}; }
    if b.miner != first.miner { fields := fields + {Miner}; }
    if b.epoch != first.epoch { fields := fields + {Epoch}; }
    if b.globalExecIndex != first.globalExecIndex { fields := fields + {GlobalExecIndex}; }
    if b.commitIndex != first.commitIndex { fields := fields + {CommitIndex}; }
    var same := SameTxOrder(b, first);
    if |b.txOrder| != |first.txOrder| {
      fields := fields + {TxCount};
    } else if !same {
      fields := fields + {TxOrder};
    }
  }

  method CompareFields(valid: seq<BlockInfo>) returns (fields: set<Field>)
    ensures fields == FieldsAgainstFirst(valid)
  {
    fields := {};
    var i := 1;
    while i < |valid|
      invariant 1 <= i
      invariant forall f :: f in fields <==> exists j :: 1 <= j < i && j < |valid| && Differ(f, valid[0], valid[j])
    {
      fields := CompareChain(valid[i], valid[0], fields);
      fields := CompareRest(valid[i], valid[0], fields);
      i := i + 1;
    }
  }

  /** What the scan remembers of the block before: the hash of each node that was valid there, and of no other. */
  ghost predicate Remembers(nodes: seq<Name>, rows: seq<Row>, n: nat, prev: map<Name, string>)
    requires Complete(nodes, rows) && n <= |rows|
  {
    forall k :: if n > 0 && k in nodes && !rows[n - 1][k].IsError() then k in prev && prev[k] == rows[n - 1][k].hash
                else k !in prev
  }

  method ForgetAll(nodes: seq<Name>, before: map<Name, string>) returns (prev: map<Name, string>)
    ensures forall k :: k in prev <==> k in before && k !in nodes
  {
    prev := before;
    for i := 0 to |nodes|
      invariant forall k :: k in prev <==> k in before && k !in nodes[..i]
    {
      prev := prev - {nodes[i]};
    }
  }

  /** Keep the hashes of the valid nodes, drop the others. */
  method RememberHashes(nodes: seq<Name>, row: Row, before: map<Name, string>) returns (prev: map<Name, string>)
    requires (forall k :: k in nodes ==> k in row) && forall k :: k in before ==> k in nodes
    ensures forall k :: if k in nodes && !row[k].IsError() then k in prev && prev[k] == row[k].hash else k !in prev
  {
    prev := before;
    for i := 0 to |nodes|
      invariant forall k :: k in nodes[..i] ==>
                  if row[k].IsError() then k !in prev else k in prev && prev[k] == row[k].hash
      invariant forall k :: k in prev ==> k in nodes
    {
      if !row[nodes[i]].IsError() {
        prev := prev[nodes[i] := row[nodes[i]].hash];
      } else {
        prev := prev - {nodes[i]};
      }
    }
  }

  predicate LinkFails(row: Row, prev: map<Name, string>, k: Name)
    requires k in row
  {
    !row[k].IsError() && k in prev && row[k].parentHash != prev[k]
  }

  /** Mark, in place, the nodes whose link to the remembered hash fails. */
  method CheckLinks(nodes: seq<Name>, row: Row, prev: map<Name, string>) returns (marked: Row, broken: bool)
    requires forall k :: k in nodes ==> k in row
    ensures broken <==> exists k :: k in nodes && LinkFails(row, prev, k)
    ensures marked.Keys == row.Keys
    ensures forall k :: k in row ==>
              marked[k] == if k in nodes && LinkFails(row, prev, k) then row[k].(error := CHAIN_BROKEN) else row[k]
  {
    marked, broken := row, false;
    for i := 0 to |nodes|
      invariant broken ==> exists k :: k in nodes && LinkFails(row, prev, k)
      invariant marked.Keys == row.Keys
      invariant forall k :: k in nodes[..i] && LinkFails(row, prev, k) ==>
                  broken && marked[k] == row[k].(error := CHAIN_BROKEN)
      invariant forall k :: k in row && !(k in nodes[..i] && LinkFails(row, prev, k)) ==> marked[k] == row[k]
    {
      var k := nodes[i];
      assert forall j :: j in nodes[..i + 1] <==> j in nodes[..i] || j == k;
      var bi := marked[k];
      if !bi.IsError() && k in prev && bi.parentHash != prev[k] {
        marked := marked[k := bi.(error := CHAIN_BROKEN)];
        broken := true;
      }
    }
    assert nodes[..|nodes|] == nodes;
  }

  // ----- Sequential anomalies -----

  /** What the scan remembers of a node over the compared blocks: its last entry, and how long its state has stood. */
  datatype PrevState = PrevState(entry: Entry, streak: nat)

  ghost predicate Tracks(h: seq<Entry>, k: Name, prevState: map<Name, PrevState>) {
    if h == [] then k !in prevState
    else k in prevState && prevState[k] == PrevState(h[|h| - 1], RunLength(h))
  }

  /** The checks of an entry against the one before. */
  method PairKinds(prev: Entry, cur: Entry) returns (kinds: seq<AlarmKind>)
    requires prev.Seen? && cur.Seen?
    ensures kinds == Maybe(TimeFalls(prev, cur), TimestampRegression) + Maybe(GeiStalls(prev, cur), GeiRegression)
                     + Maybe(EpochFalls(prev, cur), EpochRegression) + Maybe(EpochSkips(prev, cur), EpochJump)
  {
    kinds := [];
    if cur.timestamp > 0 && prev.timestamp > 0 && cur.timestamp < prev.timestamp {
      var regression := prev.timestamp - cur.timestamp;
      if regression > 30 { kinds := kinds + [TimestampRegression]; }
    }
    if cur.gei > 0 && prev.gei > 0 && cur.gei <= prev.gei {
      kinds := kinds + [GeiRegression];
    }
    if cur.epoch > 0 && prev.epoch > 0 {
      if cur.epoch < prev.epoch {
        kinds := kinds + [EpochRegression];
      } else if cur.epoch > (prev.epoch + 1) % TWO64 {
        kinds := kinds + [EpochJump];
      }
    }
  }

  /** The anomaly checks on one node: its alarms, and what to remember of it. */
  method CheckNode(cur: Entry, txCount: nat, k: Name, prevState: map<Name, PrevState>, ghost h: seq<Entry>)
      returns (kinds: seq<AlarmKind>, now: PrevState)
    requires Tracks(h, k, prevState)
    ensures kinds == AlarmsOf(h, cur, txCount)
    ensures now == PrevState(cur, RunLength(h + [cur]))
  {
    assert (h + [cur])[..|h|] == h;
    kinds := [];
    if cur.Seen? && k in prevState && prevState[k].entry.Seen? {
      var prev := prevState[k].entry;
      kinds := PairKinds(prev, cur);
      if cur.stateRoot == prev.stateRoot && cur.epoch == prev.epoch {
        var newStreak := prevState[k].streak + 1;
        if newStreak >= 5 && txCount > 0 { kinds := kinds + [StateRootFreeze]; }
        now := PrevState(cur, newStreak);
      } else {
        now := PrevState(cur, 0);
      }
    } else {
      now := PrevState(cur, 0);
    }
  }

  predicate Distinct(nodes: seq<Name>) {
    forall i, j :: 0 <= i < j < |nodes| ==> nodes[i] != nodes[j]
  }

  lemma HistoryGrows(hex: string -> nat, nodes: seq<Name>, rows: seq<Row>, k: Name, i: nat)
    requires Complete(nodes, rows) && k in nodes && i < |rows|
    ensures k in Marked(nodes, rows, i) && Marked(nodes, rows, i)[k].txCount == rows[i][k].txCount
    ensures History(hex, nodes, rows, k, i + 1)
         == History(hex, nodes, rows, k, i)
            + (if Compared(nodes, rows, i) then [EntryOf(hex, Marked(nodes, rows, i)[k])] else [])
  {
  }

  method CheckAnomalies(hex: string -> nat, nodes: seq<Name>, rows: seq<Row>, from: nat, i: nat, marked: Row,
                        before: map<Name, PrevState>) returns (alarms: seq<Alarm>, prevState: map<Name, PrevState>)
    requires Complete(nodes, rows) && Distinct(nodes) && i < |rows| && Compared(nodes, rows, i)
    requires marked == Marked(nodes, rows, i)
    requires forall k :: k in nodes ==> Tracks(History(hex, nodes, rows, k, i), k, before)
    ensures alarms == AlarmsAt(hex, nodes, rows, from, i, |nodes|)
    ensures forall k :: k in nodes ==> Tracks(History(hex, nodes, rows, k, i + 1), k, prevState)
  {
    hide History, Marked, Compared, RunLength, AlarmsOf, Tagged;
    alarms, prevState := [], before;
    for m := 0 to |nodes|
      invariant alarms == AlarmsAt(hex, nodes, rows, from, i, m)
      invariant forall j :: 0 <= j < m ==> Tracks(History(hex, nodes, rows, nodes[j], i + 1), nodes[j], prevState)
      invariant forall j :: m <= j < |nodes| ==> Tracks(History(hex, nodes, rows, nodes[j], i), nodes[j], prevState)
    {
      var k := nodes[m];
      ghost var h := History(hex, nodes, rows, k, i);
      HistoryGrows(hex, nodes, rows, k, i);
      var cur := EntryOf(hex, marked[k]);
      var kinds, now := CheckNode(cur, marked[k].txCount, k, prevState, h);
      alarms := alarms + Tagged(kinds, from + i, k);
      prevState := prevState[k := now];
    }
  }

  // ----- The pass -----

  lemma LinksAreBreaks(nodes: seq<Name>, rows: seq<Row>, i: nat, prev: map<Name, string>, k: Name)
    requires Complete(nodes, rows) && i < |rows| && k in nodes
    requires Compared(nodes, rows, i) && Remembers(nodes, rows, i, prev)
    ensures LinkFails(rows[i], prev, k) <==> Broken(nodes, rows, i, k)
  {
  }

  /** A block that is not compared adds to one count and leaves the rest. */
  lemma UncomparedStep(hex: string -> nat, nodes: seq<Name>, rows: seq<Row>, from: nat, i: nat, r: Report, t: Report)
    requires Complete(nodes, rows) && i < |rows| && Reports(hex, nodes, rows, from, i, r)
    requires VerdictAt(nodes, rows, i) == NilBlock || VerdictAt(nodes, rows, i) == Skipped
    requires t == r.(errorCount := r.errorCount + (if HasError(nodes, rows[i]) then 1 else 0),
                     nilBlocks := r.nilBlocks + (if VerdictAt(nodes, rows, i) == NilBlock then [from + i] else []),
                     skipCount := r.skipCount + (if VerdictAt(nodes, rows, i) == Skipped then 1 else 0))
    ensures Reports(hex, nodes, rows, from, i + 1, t)
  {
    hide AlarmsAt, Marked;
    assert !Compared(nodes, rows, i);
  }

  lemma ComparedStep(hex: string -> nat, nodes: seq<Name>, rows: seq<Row>, from: nat, i: nat, r: Report, t: Report)
    requires Complete(nodes, rows) && i < |rows| && Reports(hex, nodes, rows, from, i, r)
    requires VerdictAt(nodes, rows, i) == Matched || VerdictAt(nodes, rows, i) == Mismatched
    requires var valid := Valid(nodes, rows[i]);
             && |valid| >= 2
             && t == r.(errorCount := r.errorCount + (if HasError(nodes, rows[i]) then 1 else 0),
                        emptyBlocks := r.emptyBlocks
                                       + (if NoTransactions(valid[0]) then [from + i] else []),
                        mismatches := r.mismatches + (if VerdictAt(nodes, rows, i) == Mismatched
                                                      then [MismatchAt(nodes, rows, from, i)] else []),
                        matchCount := r.matchCount + (if VerdictAt(nodes, rows, i) == Matched then 1 else 0),
                        alarms := r.alarms + AlarmsAt(hex, nodes, rows, from, i, |nodes|))
    ensures Reports(hex, nodes, rows, from, i + 1, t)
  {
    hide AlarmsAt, VerdictAt, MismatchAt;
  }

  lemma HistoryWaits(hex: string -> nat, nodes: seq<Name>, rows: seq<Row>, i: nat, prevState: map<Name, PrevState>)
    requires Complete(nodes, rows) && i < |rows| && |Valid(nodes, rows[i])| < 2
    requires forall k :: k in nodes ==> Tracks(History(hex, nodes, rows, k, i), k, prevState)
    ensures forall k :: k in nodes ==> Tracks(History(hex, nodes, rows, k, i + 1), k, prevState)
  {
    forall k | k in nodes ensures History(hex, nodes, rows, k, i + 1) == History(hex, nodes, rows, k, i) {
      HistoryGrows(hex, nodes, rows, k, i);
    }
  }

  /** The state of the pass after `n` blocks. */
  datatype Pass = Pass(report: Report, prevBlockHashes: map<Name, string>, prevState: map<Name, PrevState>)

  ghost predicate Scanned(hex: string -> nat, nodes: seq<Name>, rows: seq<Row>, from: nat, n: nat, p: Pass)
    requires Complete(nodes, rows) && n <= |rows|
  {
    && Reports(hex, nodes, rows, from, n, p.report)
    && Remembers(nodes, rows, n, p.prevBlockHashes)
    && forall k :: k in nodes ==> Tracks(History(hex, nodes, rows, k, n), k, p.prevState)
  }

  lemma NothingScanned(hex: string -> nat, nodes: seq<Name>, rows: seq<Row>, from: nat)
    requires Complete(nodes, rows)
    ensures Scanned(hex, nodes, rows, from, 0, Pass(Report([], 0, 0, 0, [], [], []), map[], map[]))
  {
  }

  lemma ScannedReports(hex: string -> nat, nodes: seq<Name>, rows: seq<Row>, from: nat, n: nat, p: Pass)
    requires Complete(nodes, rows) && n <= |rows| && Scanned(hex, nodes, rows, from, n, p)
    ensures Reports(hex, nodes, rows, from, n, p.report)
  {
  }

  /** Which of the two short paths a block takes is its verdict. */
  lemma ShortVerdict(nodes: seq<Name>, rows: seq<Row>, i: nat)
    requires Complete(nodes, rows) && i < |rows| && |Valid(nodes, rows[i])| < 2
    ensures VerdictAt(nodes, rows, i)
         == if |Valid(nodes, rows[i])| == 0 && Absent(nodes, rows[i]) > 0 then NilBlock else Skipped
  {
  }

  lemma {:induction false} NoneValid(nodes: seq<Name>, row: Row)
    requires (forall k :: k in nodes ==> k in row) && Valid(nodes, row) == []
    ensures forall k :: k in nodes ==> row[k].IsError()
  {
    if nodes != [] { NoneValid(nodes[..|nodes| - 1], row); }
  }

  /** A block with fewer than two valid answers: the two early `continue` paths. */
  method ScanShort(hex: string -> nat, nodes: seq<Name>, rows: seq<Row>, from: nat, i: nat, valid: seq<BlockInfo>,
                   missing: nat, p: Pass) returns (q: Pass)
    requires Complete(nodes, rows) && i < |rows| && Scanned(hex, nodes, rows, from, i, p)
    requires valid == Valid(nodes, rows[i]) && |valid| < 2 && missing == Absent(nodes, rows[i])
    ensures Scanned(hex, nodes, rows, from, i + 1, q)
  {
    hide Reports, VerdictAt, History, Tracks, Valid, Absent;
    var r, row, prevBlockHashes := p.report, rows[i], p.prevBlockHashes;
    ShortVerdict(nodes, rows, i);
    HistoryWaits(hex, nodes, rows, i, p.prevState);
    if HasError(nodes, row) {
      r := r.(errorCount := r.errorCount + 1);
    }
    if |valid| == 0 && missing > 0 {
      r := r.(nilBlocks := r.nilBlocks + [from + i]);
      NoneValid(nodes, row);
      prevBlockHashes := ForgetAll(nodes, prevBlockHashes);
    } else {
      r := r.(skipCount := r.skipCount + 1);
      prevBlockHashes := RememberHashes(nodes, row, prevBlockHashes);
    }
    UncomparedStep(hex, nodes, rows, from, i, p.report, r);
    q := Pass(r, prevBlockHashes, p.prevState);
  }

  /** The field comparison and the link check of one block, from the hashes remembered of the block before. */
  method CompareBlock(nodes: seq<Name>, rows: seq<Row>, from: nat, i: nat, valid: seq<BlockInfo>,
                      prev: map<Name, string>)
      returns (marked: Row, fields: set<Field>)
    requires Complete(nodes, rows) && i < |rows| && Compared(nodes, rows, i) && valid == Valid(nodes, rows[i])
    requires Remembers(nodes, rows, i, prev)
    ensures marked == Marked(nodes, rows, i) && Mismatch(from + i, marked, fields) == MismatchAt(nodes, rows, from, i)
    ensures VerdictAt(nodes, rows, i) == if fields != {} then Mismatched else Matched
  {
    fields := CompareFields(valid);
    var broken;
    marked, broken := CheckLinks(nodes, rows[i], prev);
    forall k | k in nodes ensures LinkFails(rows[i], prev, k) <==> Broken(nodes, rows, i, k) {
      LinksAreBreaks(nodes, rows, i, prev, k);
    }
    FirstNodeSpeaksForAll(valid);
    if broken {
      fields := fields + {ChainBroken};
    }
  }

  /** A compared block: fields, links, verdict, anomalies. */
  method ScanFull(hex: string -> nat, nodes: seq<Name>, rows: seq<Row>, from: nat, i: nat, valid: seq<BlockInfo>,
                  p: Pass)
      returns (q: Pass)
    requires Complete(nodes, rows) && Distinct(nodes) && i < |rows| && Scanned(hex, nodes, rows, from, i, p)
    requires valid == Valid(nodes, rows[i]) && |valid| >= 2
    ensures Scanned(hex, nodes, rows, from, i + 1, q)
  {
    hide Reports, VerdictAt, History, Tracks, MismatchAt, Marked, AlarmsAt;
    var r := p.report;
    var marked, fields := CompareBlock(nodes, rows, from, i, valid, p.prevBlockHashes);
    var prevBlockHashes := RememberHashes(nodes, rows[i], p.prevBlockHashes);
    var alarms, prevState := CheckAnomalies(hex, nodes, rows, from, i, marked, p.prevState);
    r := r.(errorCount := r.errorCount + (if HasError(nodes, rows[i]) then 1 else 0),
            emptyBlocks := r.emptyBlocks + (if NoTransactions(valid[0]) then [from + i] else []),
            alarms := r.alarms + alarms);
    if fields != {} {
      r := r.(mismatches := r.mismatches + [Mismatch(from + i, marked, fields)]);
    } else {
      r := r.(matchCount := r.matchCount + 1);
    }
    ComparedStep(hex, nodes, rows, from, i, p.report, r);
    q := Pass(r, prevBlockHashes, prevState);
  }

  method CheckBatch(hex: string -> nat, nodes: seq<Name>, rows: seq<Row>, from: nat) returns (r: Report)
    requires Complete(nodes, rows) && Distinct(nodes)
    ensures Reports(hex, nodes, rows, from, |rows|, r)
  {
    NothingScanned(hex, nodes, rows, from);
    hide Scanned, Reports, Valid, Absent;
    var p := Pass(Report([], 0, 0, 0, [], [], []), map[], map[]);
    for i := 0 to |rows|
      invariant Scanned(hex, nodes, rows, from, i, p)
    {
      var valid, missing := CollectValid(nodes, rows[i]);
      if |valid| < 2 {
        p := ScanShort(hex, nodes, rows, from, i, valid, missing, p);
        continue;
      }
      p := ScanFull(hex, nodes, rows, from, i, valid, p);
    }
    ScannedReports(hex, nodes, rows, from, |rows|, p);
    r := p.report;
  }

  // ----- Reading a report -----

  lemma {:induction false} MismatchListed(nodes: seq<Name>, rows: seq<Row>, from: nat, n: nat, i: nat)
    requires Complete(nodes, rows) && n <= |rows| && i < |rows|
    ensures forall m :: m in MismatchesOf(nodes, rows, from, n) && m.block == from + i ==>
              i < n && m == MismatchAt(nodes, rows, from, i) && VerdictAt(nodes, rows, i) == Mismatched
    ensures i < n && VerdictAt(nodes, rows, i) == Mismatched ==>
              MismatchAt(nodes, rows, from, i) in MismatchesOf(nodes, rows, from, n)
  {
    hide VerdictAt, Marked, FieldsAgainstFirst;
    if n > 0 { MismatchListed(nodes, rows, from, n - 1, i); }
  }

  /**
   * A mismatch is reported for a block exactly when two nodes answer there and two of the answers are apart or some
   * link fails; and it shows the answers as they were, but for the marks.
   */
  lemma MismatchReported(hex: string -> nat, nodes: seq<Name>, rows: seq<Row>, from: nat, r: Report, i: nat)
    requires Complete(nodes, rows) && Reports(hex, nodes, rows, from, |rows|, r) && i < |rows|
    ensures (exists m :: m in r.mismatches && m.block == from + i)
       <==> TwoAnswer(nodes, rows[i]) && (NodesApart(nodes, rows[i]) || SomeLinkFails(nodes, rows, i))
    ensures forall m :: m in r.mismatches && m.block == from + i ==>
              m.blocks.Keys == rows[i].Keys
              && forall k :: k in rows[i] ==> m.blocks[k].(error := rows[i][k].error) == rows[i][k]
  {
    MismatchListed(nodes, rows, from, |rows|, i);
    VerdictMeans(nodes, rows, i);
    hide VerdictAt, FieldsAgainstFirst, TwoAnswer, NodesApart, SomeLinkFails;
    if VerdictAt(nodes, rows, i) == Mismatched { assert MismatchAt(nodes, rows, from, i) in r.mismatches; }
  }

  lemma BrokenMeans(nodes: seq<Name>, rows: seq<Row>, from: nat, i: nat, k: Name)
    requires Complete(nodes, rows) && i < |rows| && k in nodes && rows[i][k].error != "CHAIN BROKEN"
    ensures Broken(nodes, rows, i, k)
       <==> && i > 0 && TwoAnswer(nodes, rows[i]) && rows[i - 1][k].error == "" && rows[i][k].error == ""
            && rows[i][k].parentHash != rows[i - 1][k].hash
    ensures var m := MismatchAt(nodes, rows, from, i);
            m.block == from + i && k in m.blocks && (m.blocks[k].error == "CHAIN BROKEN" <==> Broken(nodes, rows, i, k))
    ensures Broken(nodes, rows, i, k) ==> VerdictAt(nodes, rows, i) == Mismatched
  {
    TwoValid(nodes, rows[i]);
    hide FieldsAgainstFirst, Valid, TwoAnswer;
  }

  /**
   * Node `k` is marked CHAIN BROKEN at a block exactly when two nodes answer there, `k` answers there and right before,
   * and the parent hash here is not the hash there: no cascade, no stale hash.
   */
  lemma MarksAreBreaks(hex: string -> nat, nodes: seq<Name>, rows: seq<Row>, from: nat, r: Report, i: nat, k: Name)
    requires Complete(nodes, rows) && Reports(hex, nodes, rows, from, |rows|, r) && i < |rows| && k in nodes
    requires rows[i][k].error != "CHAIN BROKEN"
    ensures (exists m :: m in r.mismatches && m.block == from + i
                    && k in m.blocks && m.blocks[k].error == "CHAIN BROKEN")
       <==> && i > 0 && TwoAnswer(nodes, rows[i]) && rows[i - 1][k].error == "" && rows[i][k].error == ""
            && rows[i][k].parentHash != rows[i - 1][k].hash
  {
    MismatchListed(nodes, rows, from, |rows|, i);
    BrokenMeans(nodes, rows, from, i, k);
    hide MismatchAt, VerdictAt, TwoAnswer, Broken;
    if Broken(nodes, rows, i, k) { assert MismatchAt(nodes, rows, from, i) in r.mismatches; }
  }

  lemma {:induction false} FirstValid(nodes: seq<Name>, row: Row, a: nat)
    requires (forall k :: k in nodes ==> k in row) && a < |nodes|
    requires row[nodes[a]].error == "" && forall b :: 0 <= b < a ==> row[nodes[b]].error != ""
    ensures Valid(nodes, row) != [] && Valid(nodes, row)[0] == row[nodes[a]]
  {
    var n := |nodes| - 1;
    if a < n {
      FirstValid(nodes[..n], row, a);
    } else {
      AnyAnswers(nodes[..n], row);
    }
  }

  lemma {:induction false} EmptyContents(nodes: seq<Name>, rows: seq<Row>, from: nat, n: nat, i: nat)
    requires Complete(nodes, rows) && n <= |rows| && i < |rows|
    ensures from + i in EmptyBlocks(nodes, rows, from, n)
       <==> i < n && var valid := Valid(nodes, rows[i]); |valid| >= 2 && NoTransactions(valid[0])
  {
    hide Valid, NoTransactions;
    if n > 0 { EmptyContents(nodes, rows, from, n - 1, i); }
  }

  ghost predicate FirstToAnswer(nodes: seq<Name>, row: Row, a: nat)
    requires forall k :: k in nodes ==> k in row
  {
    a < |nodes| && row[nodes[a]].error == "" && forall b :: 0 <= b < a ==> row[nodes[b]].error != ""
  }

  /** A block is listed as empty exactly when two nodes answer and the first that does has no transaction at all. */
  lemma EmptyListed(hex: string -> nat, nodes: seq<Name>, rows: seq<Row>, from: nat, r: Report, i: nat, a: nat)
    requires Complete(nodes, rows) && Reports(hex, nodes, rows, from, |rows|, r) && i < |rows|
    requires FirstToAnswer(nodes, rows[i], a)
    ensures from + i in r.emptyBlocks
       <==> TwoAnswer(nodes, rows[i]) && rows[i][nodes[a]].txCount == 0 && rows[i][nodes[a]].sysTxCount == 0
  {
    EmptyContents(nodes, rows, from, |rows|, i);
    TwoValid(nodes, rows[i]);
    FirstValid(nodes, rows[i], a);
  }

  ghost predicate AnyError(nodes: seq<Name>, row: Row)
    requires forall k :: k in nodes ==> k in row
  {
    exists k :: k in nodes && row[k].error != ""
  }

  ghost function RowsWithError(nodes: seq<Name>, rows: seq<Row>, n: nat): set<nat>
    requires Complete(nodes, rows) && n <= |rows|
  {
    set i: nat | i < n && AnyError(nodes, rows[i])
  }

  lemma ErrorsStep(nodes: seq<Name>, rows: seq<Row>, n: nat)
    requires Complete(nodes, rows) && n < |rows|
    ensures RowsWithError(nodes, rows, n + 1)
         == RowsWithError(nodes, rows, n) + (if HasError(nodes, rows[n]) then {n} else {})
  {
    assert HasError(nodes, rows[n]) == AnyError(nodes, rows[n]);
    hide HasError, AnyError;
  }

  lemma {:induction false} ErrorsCount(nodes: seq<Name>, rows: seq<Row>, n: nat)
    requires Complete(nodes, rows) && n <= |rows|
    ensures ErrorRows(nodes, rows, n) == |RowsWithError(nodes, rows, n)|
  {
    hide HasError, AnyError, Complete;
    if n == 0 {
      assert RowsWithError(nodes, rows, 0) == {};
    } else {
      ErrorsCount(nodes, rows, n - 1);
      ErrorsStep(nodes, rows, n - 1);
      assert n - 1 !in RowsWithError(nodes, rows, n - 1);
    }
  }

  /** The counts are the numbers of blocks: of those with some error, and of those with each verdict. */
  lemma ErrorsCounted(hex: string -> nat, nodes: seq<Name>, rows: seq<Row>, from: nat, r: Report)
    requires Complete(nodes, rows) && Reports(hex, nodes, rows, from, |rows|, r)
    ensures r.errorCount == |RowsWithError(nodes, rows, |rows|)|
    ensures r.matchCount + |r.mismatches| + r.skipCount + |r.nilBlocks| == |rows|
  {
    ErrorsCount(nodes, rows, |rows|);
    VerdictsPartition(nodes, rows, from, |rows|);
  }

  /** The valid nodes, if two or more, agree at this block, and no node's link to the block before is broken. */
  ghost predicate Agreed(nodes: seq<Name>, rows: seq<Row>, i: nat)
    requires Complete(nodes, rows) && i < |rows|
  {
    Compared(nodes, rows, i) ==>
      !Disagree(Valid(nodes, rows[i])) && forall k :: k in nodes ==> !Broken(nodes, rows, i, k)
  }

  lemma AgreedUnlessMismatched(nodes: seq<Name>, rows: seq<Row>, i: nat)
    requires Complete(nodes, rows) && i < |rows|
    ensures Agreed(nodes, rows, i) <==> VerdictAt(nodes, rows, i) != Mismatched
  {
  }

  /** A report has no mismatch exactly when there is agreement at every block of its range. */
  lemma CleanMeansAgreement(nodes: seq<Name>, rows: seq<Row>, from: nat)
    requires Complete(nodes, rows)
    ensures MismatchesOf(nodes, rows, from, |rows|) == [] <==> forall i :: 0 <= i < |rows| ==> Agreed(nodes, rows, i)
  {
    hide VerdictAt, Agreed;
    BlocksWithContents(Mismatched, nodes, rows, from, |rows|);
    var bad := BlocksWith(Mismatched, nodes, rows, from, |rows|);
    forall i | 0 <= i < |rows| ensures from + i in bad <==> !Agreed(nodes, rows, i) {
      AgreedUnlessMismatched(nodes, rows, i);
    }
    if bad != [] {
      assert bad[0] in bad;
      assert !Agreed(nodes, rows, bad[0] - from) by { assert from + (bad[0] - from) in bad; }
    }
  }

  lemma {:induction false} AlarmAtNode(hex: string -> nat, nodes: seq<Name>, rows: seq<Row>, from: nat, i: nat, m: nat,
                                       a: Alarm)
    requires Complete(nodes, rows) && i < |rows| && m <= |nodes|
    ensures a in AlarmsAt(hex, nodes, rows, from, i, m)
       <==> a.block == from + i && a.node in nodes[..m]
            && a.kind in KindsAt(hex, nodes, rows, i, a.node)
  {
    hide KindsAt;
    if m > 0 {
      AlarmAtNode(hex, nodes, rows, from, i, m - 1, a);
      assert nodes[..m] == nodes[..m - 1] + [nodes[m - 1]];
    }
  }

  lemma {:induction false} AlarmRaised(hex: string -> nat, nodes: seq<Name>, rows: seq<Row>, from: nat, n: nat, i: nat,
                                       k: Name, kind: AlarmKind)
    requires Complete(nodes, rows) && n <= |rows| && i < |rows| && k in nodes
    ensures Alarm(kind, from + i, k) in AlarmsUpTo(hex, nodes, rows, from, n)
       <==> i < n && Compared(nodes, rows, i)
            && kind in KindsAt(hex, nodes, rows, i, k)
  {
    hide KindsAt, AlarmsAt, Compared;
    if n > 0 {
      AlarmRaised(hex, nodes, rows, from, n - 1, i, k, kind);
      AlarmAtNode(hex, nodes, rows, from, n - 1, |nodes|, Alarm(kind, from + i, k));
      assert nodes[..|nodes|] == nodes;
    }
  }

  // ----- The alarms, from the answers themselves -----

  /** Node `k` has an answer at block `i` that the link check has not marked. */
  ghost predicate Usable(nodes: seq<Name>, rows: seq<Row>, i: nat, k: Name)
    requires Complete(nodes, rows) && i < |rows| && k in nodes
  {
    rows[i][k].error == "" && !Broken(nodes, rows, i, k)
  }

  /** What the scan remembers of block `i`. */
  ghost function EntryAt(hex: string -> nat, nodes: seq<Name>, rows: seq<Row>, i: nat, k: Name): (e: Entry)
    requires Complete(nodes, rows) && i < |rows| && k in nodes
    ensures e.Seen? <==> Usable(nodes, rows, i, k)
    ensures e.Seen? ==> var b := rows[i][k];
                        e == Seen(hex(b.timestamp), hex(b.globalExecIndex), hex(b.epoch), b.stateRoot)
  {
    EntryOf(hex, Marked(nodes, rows, i)[k])
  }

  /** Block `j` is the last compared one before block `i`. */
  ghost predicate LastCompared(nodes: seq<Name>, rows: seq<Row>, j: nat, i: nat)
    requires Complete(nodes, rows) && i <= |rows|
  {
    j < i && TwoAnswer(nodes, rows[j]) && forall m :: j < m < i ==> !TwoAnswer(nodes, rows[m])
  }

  ghost predicate ComparedHere(nodes: seq<Name>, rows: seq<Row>, i: nat)
    requires Complete(nodes, rows) && i < |rows|
  {
    TwoAnswer(nodes, rows[i])
  }

  lemma LastComparedStep(nodes: seq<Name>, rows: seq<Row>, j: nat, i: nat)
    requires Complete(nodes, rows) && i < |rows|
    ensures LastCompared(nodes, rows, j, i + 1)
       <==> if ComparedHere(nodes, rows, i) then j == i else LastCompared(nodes, rows, j, i)
  {
    hide TwoAnswer;
  }

  lemma HistoryStep(hex: string -> nat, nodes: seq<Name>, rows: seq<Row>, k: Name, i: nat)
    requires Complete(nodes, rows) && i < |rows| && k in nodes
    ensures History(hex, nodes, rows, k, i + 1)
         == History(hex, nodes, rows, k, i)
            + (if ComparedHere(nodes, rows, i) then [EntryAt(hex, nodes, rows, i, k)] else [])
  {
    TwoValid(nodes, rows[i]);
    HistoryGrows(hex, nodes, rows, k, i);
    hide History, Marked, TwoAnswer, Valid;
  }

  /** The last entry of a node's history is from there. */
  lemma {:induction false} HistoryEnds(hex: string -> nat, nodes: seq<Name>, rows: seq<Row>, k: Name, i: nat, j: nat)
    requires Complete(nodes, rows) && i <= |rows| && k in nodes && LastCompared(nodes, rows, j, i)
    ensures var h := History(hex, nodes, rows, k, i); h != [] && h[|h| - 1] == EntryAt(hex, nodes, rows, j, k)
    decreases i
  {
    hide History, EntryAt, ComparedHere, Complete, Usable, TwoAnswer, Valid;
    assert i > 0;
    hide LastCompared;
    LastComparedStep(nodes, rows, j, i - 1);
    HistoryStep(hex, nodes, rows, k, i - 1);
    if !ComparedHere(nodes, rows, i - 1) { HistoryEnds(hex, nodes, rows, k, i - 1, j); }
  }

  lemma {:induction false} HistoryStarts(hex: string -> nat, nodes: seq<Name>, rows: seq<Row>, k: Name, i: nat)
      returns (j: nat)
    requires Complete(nodes, rows) && i <= |rows| && k in nodes && History(hex, nodes, rows, k, i) != []
    ensures LastCompared(nodes, rows, j, i)
    decreases i
  {
    hide EntryAt, LastCompared, ComparedHere, Complete, Usable, TwoAnswer, Valid, Marked, Compared, EntryOf;
    assert i > 0;
    hide History;
    HistoryStep(hex, nodes, rows, k, i - 1);
    if ComparedHere(nodes, rows, i - 1) {
      j := i - 1;
    } else {
      j := HistoryStarts(hex, nodes, rows, k, i - 1);
    }
    LastComparedStep(nodes, rows, j, i - 1);
  }

  /** Block `j` is the last compared one before block `i`, and node `k` has usable answers at both. */
  ghost predicate Follows(nodes: seq<Name>, rows: seq<Row>, j: nat, i: nat, k: Name)
    requires Complete(nodes, rows) && i < |rows| && k in nodes
  {
    LastCompared(nodes, rows, j, i) && Usable(nodes, rows, j, k) && Usable(nodes, rows, i, k)
  }

  /** And what is remembered of the two passes a test. */
  ghost predicate PairPasses(hex: string -> nat, nodes: seq<Name>, rows: seq<Row>, j: nat, i: nat, k: Name,
                             test: (Entry, Entry) -> bool)
    requires Complete(nodes, rows) && i < |rows| && k in nodes
  {
    Follows(nodes, rows, j, i, k) && test(EntryAt(hex, nodes, rows, j, k), EntryAt(hex, nodes, rows, i, k))
  }

  lemma RaisedFor(hex: string -> nat, nodes: seq<Name>, rows: seq<Row>, from: nat, r: Report, i: nat, k: Name,
                  kind: AlarmKind)
    requires Complete(nodes, rows) && Reports(hex, nodes, rows, from, |rows|, r) && i < |rows| && k in nodes
    ensures Alarm(kind, from + i, k) in r.alarms
       <==> ComparedHere(nodes, rows, i)
            && kind in AlarmsOf(History(hex, nodes, rows, k, i), EntryAt(hex, nodes, rows, i, k), rows[i][k].txCount)
  {
    AlarmRaised(hex, nodes, rows, from, |rows|, i, k, kind);
    TwoValid(nodes, rows[i]);
    hide History, Marked, AlarmsOf, TwoAnswer, Valid, AlarmsUpTo, MismatchesOf, BlocksWith, ErrorRows, EmptyBlocks;
  }

  ghost predicate LastPasses(h: seq<Entry>, cur: Entry, test: (Entry, Entry) -> bool) {
    h != [] && h[|h| - 1].Seen? && cur.Seen? && test(h[|h| - 1], cur)
  }

  /** An alarm kind that is decided by a test of the last entry and the new one. */
  ghost predicate DecidedBy(kind: AlarmKind, test: (Entry, Entry) -> bool) {
    forall h: seq<Entry>, cur: Entry, tx: nat :: kind in AlarmsOf(h, cur, tx) <==> LastPasses(h, cur, test)
  }

  lemma LastPassesIff(hex: string -> nat, nodes: seq<Name>, rows: seq<Row>, i: nat, k: Name,
                      test: (Entry, Entry) -> bool)
    requires Complete(nodes, rows) && i < |rows| && k in nodes
    ensures LastPasses(History(hex, nodes, rows, k, i), EntryAt(hex, nodes, rows, i, k), test)
       <==> exists j: nat :: PairPasses(hex, nodes, rows, j, i, k, test)
  {
    hide History, EntryAt, LastCompared, Usable, Complete;
    var h, cur := History(hex, nodes, rows, k, i), EntryAt(hex, nodes, rows, i, k);
    if h != [] {
      var j := HistoryStarts(hex, nodes, rows, k, i);
      HistoryEnds(hex, nodes, rows, k, i, j);
      assert PairPasses(hex, nodes, rows, j, i, k, test) <==> LastPasses(h, cur, test);
    }
    if j: nat :| PairPasses(hex, nodes, rows, j, i, k, test) {
      HistoryEnds(hex, nodes, rows, k, i, j);
      assert LastPasses(h, cur, test);
    }
  }

  /** An alarm other than the freeze is raised exactly when its test of two entries in a row says so. */
  lemma PairAlarm(hex: string -> nat, nodes: seq<Name>, rows: seq<Row>, from: nat, r: Report, i: nat, k: Name,
                  kind: AlarmKind, test: (Entry, Entry) -> bool)
    requires Complete(nodes, rows) && Reports(hex, nodes, rows, from, |rows|, r) && i < |rows| && k in nodes
    requires DecidedBy(kind, test)
    ensures Alarm(kind, from + i, k) in r.alarms
       <==> ComparedHere(nodes, rows, i) && exists j: nat :: PairPasses(hex, nodes, rows, j, i, k, test)
  {
    hide AlarmsOf, History, EntryAt, PairPasses, ComparedHere, Reports, LastPasses;
    RaisedFor(hex, nodes, rows, from, r, i, k, kind);
    LastPassesIff(hex, nodes, rows, i, k, test);
  }

  // ----- The tests, and what they come to -----

  lemma KindsIn(a: seq<AlarmKind>, b: seq<AlarmKind>, c: seq<AlarmKind>, d: seq<AlarmKind>, e: seq<AlarmKind>)
    ensures forall x :: x in a + b + c + d + e <==> x in a || x in b || x in c || x in d || x in e
  {
  }

  lemma KindsAre(h: seq<Entry>, cur: Entry, tx: nat)
    ensures TimestampRegression in AlarmsOf(h, cur, tx) <==> LastPasses(h, cur, TimeFalls)
    ensures GeiRegression in AlarmsOf(h, cur, tx) <==> LastPasses(h, cur, GeiStalls)
    ensures EpochRegression in AlarmsOf(h, cur, tx) <==> LastPasses(h, cur, EpochFalls)
    ensures EpochJump in AlarmsOf(h, cur, tx) <==> LastPasses(h, cur, EpochSkips)
  {
    hide StateStands, Maybe;
    if h != [] {
      var prev := h[|h| - 1];
      KindsIn(Maybe(TimeFalls(prev, cur), TimestampRegression), Maybe(GeiStalls(prev, cur), GeiRegression),
              Maybe(EpochFalls(prev, cur), EpochRegression), Maybe(EpochSkips(prev, cur), EpochJump),
              Maybe(StateStands(h, cur) && tx > 0, StateRootFreeze));
    }
  }

  /** The timestamp alarm: more than 30 seconds back from the last compared block. */
  lemma TimeRaised(hex: string -> nat, nodes: seq<Name>, rows: seq<Row>, from: nat, r: Report, i: nat, k: Name)
    requires Complete(nodes, rows) && Reports(hex, nodes, rows, from, |rows|, r) && i < |rows| && k in nodes
    ensures Alarm(TimestampRegression, from + i, k) in r.alarms
       <==> TwoAnswer(nodes, rows[i])
            && exists j: nat :: Follows(nodes, rows, j, i, k)
                           && 0 < hex(rows[i][k].timestamp)
                           && hex(rows[j][k].timestamp) - hex(rows[i][k].timestamp) > 30
  {
    hide Usable, EntryAt, TwoAnswer, Reports, AlarmsOf, LastPasses;
    forall h, cur, tx { KindsAre(h, cur, tx); }
    PairAlarm(hex, nodes, rows, from, r, i, k, TimestampRegression, TimeFalls);
    forall j: nat | Follows(nodes, rows, j, i, k)
      ensures PairPasses(hex, nodes, rows, j, i, k, TimeFalls)
         <==> 0 < hex(rows[i][k].timestamp) && hex(rows[j][k].timestamp) - hex(rows[i][k].timestamp) > 30
    {
    }
  }

  /** The index alarm: not above that of the last compared block. */
  lemma GeiRaised(hex: string -> nat, nodes: seq<Name>, rows: seq<Row>, from: nat, r: Report, i: nat, k: Name)
    requires Complete(nodes, rows) && Reports(hex, nodes, rows, from, |rows|, r) && i < |rows| && k in nodes
    ensures Alarm(GeiRegression, from + i, k) in r.alarms
       <==> TwoAnswer(nodes, rows[i])
            && exists j: nat :: Follows(nodes, rows, j, i, k)
                           && 0 < hex(rows[i][k].globalExecIndex) <= hex(rows[j][k].globalExecIndex)
  {
    hide Usable, EntryAt, TwoAnswer, Reports, AlarmsOf, LastPasses;
    forall h, cur, tx { KindsAre(h, cur, tx); }
    PairAlarm(hex, nodes, rows, from, r, i, k, GeiRegression, GeiStalls);
    forall j: nat | Follows(nodes, rows, j, i, k)
      ensures PairPasses(hex, nodes, rows, j, i, k, GeiStalls)
         <==> 0 < hex(rows[i][k].globalExecIndex) <= hex(rows[j][k].globalExecIndex)
    {
    }
  }

  /** The epoch alarm: below that of the last compared block. */
  lemma EpochFallRaised(hex: string -> nat, nodes: seq<Name>, rows: seq<Row>, from: nat, r: Report, i: nat, k: Name)
    requires Complete(nodes, rows) && Reports(hex, nodes, rows, from, |rows|, r) && i < |rows| && k in nodes
    ensures Alarm(EpochRegression, from + i, k) in r.alarms
       <==> TwoAnswer(nodes, rows[i])
            && exists j: nat :: Follows(nodes, rows, j, i, k)
                           && 0 < hex(rows[i][k].epoch) < hex(rows[j][k].epoch)
  {
    hide Usable, EntryAt, TwoAnswer, Reports, AlarmsOf, LastPasses;
    forall h, cur, tx { KindsAre(h, cur, tx); }
    PairAlarm(hex, nodes, rows, from, r, i, k, EpochRegression, EpochFalls);
    forall j: nat | Follows(nodes, rows, j, i, k)
      ensures PairPasses(hex, nodes, rows, j, i, k, EpochFalls)
         <==> 0 < hex(rows[i][k].epoch) < hex(rows[j][k].epoch)
    {
    }
  }

  /** The jump alarm: the epoch after that of the last compared block is skipped. */
  lemma EpochJumpRaised(hex: string -> nat, nodes: seq<Name>, rows: seq<Row>, from: nat, r: Report, i: nat, k: Name)
    requires Complete(nodes, rows) && Reports(hex, nodes, rows, from, |rows|, r) && i < |rows| && k in nodes
    ensures Alarm(EpochJump, from + i, k) in r.alarms
       <==> TwoAnswer(nodes, rows[i])
            && exists j: nat :: Follows(nodes, rows, j, i, k)
                           && 0 < hex(rows[j][k].epoch) <= hex(rows[i][k].epoch)
                           && (hex(rows[j][k].epoch) + 1) % TWO64 < hex(rows[i][k].epoch)
  {
    hide Usable, EntryAt, TwoAnswer, Reports, AlarmsOf, LastPasses;
    forall h, cur, tx { KindsAre(h, cur, tx); }
    PairAlarm(hex, nodes, rows, from, r, i, k, EpochJump, EpochSkips);
    forall j: nat | Follows(nodes, rows, j, i, k)
      ensures PairPasses(hex, nodes, rows, j, i, k, EpochSkips)
         <==> 0 < hex(rows[j][k].epoch) <= hex(rows[i][k].epoch) && (hex(rows[j][k].epoch) + 1) % TWO64
              < hex(rows[i][k].epoch)
    {
    }
  }

  // ----- The freeze -----

  /** The numbers of the compared blocks before block `n`, in order. */
  ghost function ComparedBefore(nodes: seq<Name>, rows: seq<Row>, n: nat): (b: seq<nat>)
    requires Complete(nodes, rows) && n <= |rows|
    ensures forall x :: 0 <= x < |b| ==> b[x] < n
  {
    if n == 0 then []
    else ComparedBefore(nodes, rows, n - 1) + (if ComparedHere(nodes, rows, n - 1) then [n - 1] else [])
  }

  lemma {:induction false} ComparedBeforeMeans(nodes: seq<Name>, rows: seq<Row>, n: nat)
    requires Complete(nodes, rows) && n <= |rows|
    ensures forall i :: i in ComparedBefore(nodes, rows, n) <==> 0 <= i < n && TwoAnswer(nodes, rows[i])
    ensures Ascending(ComparedBefore(nodes, rows, n))
  {
    hide TwoAnswer;
    if n > 0 { ComparedBeforeMeans(nodes, rows, n - 1); }
  }

  /** The history of a node is what is remembered of it at those blocks. */
  lemma {:induction false} HistoryIs(hex: string -> nat, nodes: seq<Name>, rows: seq<Row>, k: Name, n: nat, x: nat)
    requires Complete(nodes, rows) && n <= |rows| && k in nodes
    ensures |History(hex, nodes, rows, k, n)| == |ComparedBefore(nodes, rows, n)|
    ensures x < |ComparedBefore(nodes, rows, n)| ==>
              History(hex, nodes, rows, k, n)[x] == EntryAt(hex, nodes, rows, ComparedBefore(nodes, rows, n)[x], k)
    decreases n
  {
    hide EntryAt, ComparedHere, Complete, Marked, Compared, Usable;
    if n > 0 {
      hide History;
      HistoryIs(hex, nodes, rows, k, n - 1, x);
      HistoryStep(hex, nodes, rows, k, n - 1);
    }
  }

  /** Node `k` shows at block `j` the state root and the epoch that it shows at block `i`. */
  ghost predicate SameAt(hex: string -> nat, nodes: seq<Name>, rows: seq<Row>, j: nat, i: nat, k: Name)
    requires Complete(nodes, rows) && i < |rows| && j < |rows| && k in nodes
  {
    && Usable(nodes, rows, j, k) && Usable(nodes, rows, i, k)
    && rows[j][k].stateRoot == rows[i][k].stateRoot && hex(rows[j][k].epoch) == hex(rows[i][k].epoch)
  }

  lemma SameAtIff(hex: string -> nat, nodes: seq<Name>, rows: seq<Row>, i: nat, k: Name, x: nat)
    requires Complete(nodes, rows) && i < |rows| && k in nodes && x < |ComparedBefore(nodes, rows, i)|
    ensures |History(hex, nodes, rows, k, i)| == |ComparedBefore(nodes, rows, i)|
    ensures SameState(History(hex, nodes, rows, k, i)[x], EntryAt(hex, nodes, rows, i, k))
       <==> SameAt(hex, nodes, rows, ComparedBefore(nodes, rows, i)[x], i, k)
  {
    HistoryIs(hex, nodes, rows, k, i, x);
    hide History, EntryAt, ComparedBefore, Usable;
  }

  /**
   * The freeze alarm is raised for a node at a block exactly when the block is compared and has user transactions, and
   * the node shows the state root and the epoch of this block at each of the five compared blocks right before it.
   */
  lemma FreezeRaised(hex: string -> nat, nodes: seq<Name>, rows: seq<Row>, from: nat, r: Report, i: nat, k: Name)
    requires Complete(nodes, rows) && Reports(hex, nodes, rows, from, |rows|, r) && i < |rows| && k in nodes
    ensures var b := ComparedBefore(nodes, rows, i);
            Alarm(StateRootFreeze, from + i, k) in r.alarms
            <==> TwoAnswer(nodes, rows[i]) && rows[i][k].txCount > 0
                 && |b| >= 5 && forall x :: |b| - 5 <= x < |b| ==> SameAt(hex, nodes, rows, b[x], i, k)
  {
    var h, cur := History(hex, nodes, rows, k, i), EntryAt(hex, nodes, rows, i, k);
    var b := ComparedBefore(nodes, rows, i);
    RaisedFor(hex, nodes, rows, from, r, i, k, StateRootFreeze);
    FreezeMeansFiveEqual(h, cur, rows[i][k].txCount);
    HistoryIs(hex, nodes, rows, k, i, 0);
    hide History, EntryAt, ComparedBefore, SameAt, TwoAnswer, Reports, AlarmsOf, SameState;
    forall x | 0 <= x < |b| ensures SameState(h[x], cur) <==> SameAt(hex, nodes, rows, b[x], i, k) {
      SameAtIff(hex, nodes, rows, i, k, x);
    }
  }
}
