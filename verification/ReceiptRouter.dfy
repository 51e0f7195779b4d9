/** The receipt router: one goroutine that owns the waiter and pending tables and answers over one-slot channels. */
module ReceiptRouter {
  import opened Wrappers

  /** Transaction and receipt hashes; they are only ever compared. */
  type Hash = nat

  type ChanId = nat

  datatype Kind = ByTxHash | ByReceiptHash

  datatype Receipt = Receipt(txHash: Hash, rHash: Hash, body: int)

  datatype Waiter = Waiter(ch: ChanId, kind: Kind, hash: Hash)

  datatype Pending = Pending(value: Receipt, expiresAt: int)

  datatype Request = Register(ch: ChanId, kind: Kind, hash: Hash) | Cancel(ch: ChanId, kind: Kind, hash: Hash)

  /** A response channel of capacity one, with the record of what was put in it and how often a put was dropped. */
  datatype Chan = Chan(slot: Option<Receipt>, sent: seq<Receipt>, drops: nat)

  type Chans = map<ChanId, Chan>

  type Waiters = map<Hash, seq<Waiter>>

  datatype Tables = Tables(waiters: Waiters, pending: map<Hash, Pending>, chans: Chans)

  /** Seconds a receipt nobody asked for is kept. */
  const TTL := 60

  // ----- The specification of one turn of the loop -----

  function At(chans: Chans, ch: ChanId): Chan {
    if ch in chans then chans[ch] else Chan(None, [], 0)
  }

  /** The non-blocking send: put, or drop when the slot is full. */
  function Push(c: Chan, r: Receipt): Chan {
    if c.slot.None? then Chan(Some(r), c.sent + [r], c.drops) else c.(drops := c.drops + 1)
  }

  predicate Matches(w: Waiter, key: Hash, kind: Kind) {
    w.kind == kind && w.hash == key
  }

  function PushAll(chans: Chans, bucket: seq<Waiter>, key: Hash, kind: Kind, r: Receipt): Chans {
    if bucket == [] then chans
    else
      var n := |bucket| - 1;
      var c := PushAll(chans, bucket[..n], key, kind, r);
      if Matches(bucket[n], key, kind) then c[bucket[n].ch := Push(At(c, bucket[n].ch), r)] else c
  }

  function Unmatched(bucket: seq<Waiter>, key: Hash, kind: Kind): seq<Waiter> {
    if bucket == [] then []
    else
      var n := |bucket| - 1;
      Unmatched(bucket[..n], key, kind) + (if Matches(bucket[n], key, kind) then [] else [bucket[n]])
  }

  /** A table with one bucket replaced, or removed when it is empty. */
  function WithBucket(waiters: Waiters, key: Hash, bucket: seq<Waiter>): Waiters {
    if bucket == [] then waiters - {key} else waiters[key := bucket]
  }

  /** One of the two passes over a bucket. */
  function Pass(t: Tables, key: Hash, kind: Kind, r: Receipt): Tables {
    if key !in t.waiters then t
    else t.(waiters := WithBucket(t.waiters, key, Unmatched(t.waiters[key], key, kind)),
            chans := PushAll(t.chans, t.waiters[key], key, kind, r))
  }

  function OnReceipt(t: Tables, r: Receipt, now: int): Tables {
    var u := Pass(Pass(t, r.txHash, ByTxHash, r), r.rHash, ByReceiptHash, r);
    u.(pending := u.pending[r.txHash := Pending(r, now + TTL)])
  }

  predicate Expired(t: Tables, hash: Hash, now: int) {
    hash in t.pending && now > t.pending[hash].expiresAt
  }

  /** A registration is answered from the pending table, or queued, or, on an expired entry, neither. */
  function OnRegister(t: Tables, req: Request, now: int): Tables {
    if req.hash in t.pending then
      var rest := t.(pending := t.pending - {req.hash});
      if Expired(t, req.hash, now) then rest
      else rest.(chans := t.chans[req.ch := Push(At(t.chans, req.ch), t.pending[req.hash].value)])
    else
      var bucket := if req.hash in t.waiters then t.waiters[req.hash] else [];
      t.(waiters := t.waiters[req.hash := bucket + [Waiter(req.ch, req.kind, req.hash)]])
  }

  function WithoutFirst(bucket: seq<Waiter>, ch: ChanId): seq<Waiter> {
    if bucket == [] then []
    else if bucket[0].ch == ch then bucket[1..]
    else [bucket[0]] + WithoutFirst(bucket[1..], ch)
  }

  lemma {:induction false} WithoutFirstAt(bucket: seq<Waiter>, ch: ChanId, i: nat)
    requires i <= |bucket| && forall j :: 0 <= j < i ==> bucket[j].ch != ch
    requires i < |bucket| ==> bucket[i].ch == ch
    ensures WithoutFirst(bucket, ch) == if i < |bucket| then bucket[..i] + bucket[i + 1..] else bucket
  {
    if i > 0 { WithoutFirstAt(bucket[1..], ch, i - 1); }
  }

  function OnCancel(t: Tables, req: Request): Tables {
    if req.hash !in t.waiters then t
    else t.(waiters := WithBucket(t.waiters, req.hash, WithoutFirst(t.waiters[req.hash], req.ch)))
  }

  function OnCleanup(t: Tables, now: int): Tables {
    t.(pending := map h | h in t.pending && !Expired(t, h, now) :: t.pending[h])
  }

  // ----- The loop body, in place -----

  class Router {
    var waiters: Waiters
    var pending: map<Hash, Pending>
    var chans: Chans

    function Abs(): Tables
      reads this
    {
      Tables(waiters, pending, chans)
    }

    constructor ()
      ensures Abs() == Tables(map[], map[], map[])
    {
      waiters, pending, chans := map[], map[], map[];
    }

    method Send(ch: ChanId, r: Receipt)
      modifies this`chans
      ensures chans == old(chans)[ch := Push(At(old(chans), ch), r)]
    {
      var c := At(chans, ch);
      if c.slot.None? {
        chans := chans[ch := Chan(Some(r), c.sent + [r], c.drops)];
      } else {
        chans := chans[ch := c.(drops := c.drops + 1)];
      }
    }

    method SweepBucket(key: Hash, kind: Kind, r: Receipt)
      modifies this`waiters, this`chans
      ensures Abs() == Pass(old(Abs()), key, kind, r)
    {
      if key in waiters {
        var bucket := waiters[key];
        var remaining: seq<Waiter> := [];
        for i := 0 to |bucket|
          invariant waiters == old(waiters)
          invariant remaining == Unmatched(bucket[..i], key, kind)
          invariant chans == PushAll(old(chans), bucket[..i], key, kind, r)
        {
          assert bucket[..i + 1][..i] == bucket[..i];
          if Matches(bucket[i], key, kind) {
            Send(bucket[i].ch, r);
          } else {
            remaining := remaining + [bucket[i]];
          }
        }
        assert bucket[..|bucket|] == bucket;
        if |remaining| == 0 {
          waiters := waiters - {key};
        } else {
          waiters := waiters[key := remaining];
        }
      }
    }

    method HandleReceipt(receipt: Option<Receipt>, now: int)
      modifies this
      ensures Abs() == if receipt.Some? then OnReceipt(old(Abs()), receipt.value, now) else old(Abs())
    {
      if receipt.None? { return; }
      var r := receipt.value;
      SweepBucket(r.txHash, ByTxHash, r);
      SweepBucket(r.rHash, ByReceiptHash, r);
      pending := pending[r.txHash := Pending(r, now + TTL)];
    }

    method HandleRegister(req: Request, now: int)
      modifies this
      ensures Abs() == OnRegister(old(Abs()), req, now)
    {
      if req.hash in pending {
        var found := pending[req.hash];
        pending := pending - {req.hash};
        if now > found.expiresAt { return; }
        Send(req.ch, found.value);
        return;
      }
      var bucket := if req.hash in waiters then waiters[req.hash] else [];
      waiters := waiters[req.hash := bucket + [Waiter(req.ch, req.kind, req.hash)]];
    }

    method HandleCancel(req: Request)
      modifies this`waiters
      ensures Abs() == OnCancel(old(Abs()), req)
    {
      if req.hash in waiters {
        var bucket := waiters[req.hash];
        var i := 0;
        while i < |bucket| && bucket[i].ch != req.ch
          invariant 0 <= i <= |bucket|
          invariant forall j :: 0 <= j < i ==> bucket[j].ch != req.ch
        {
          i := i + 1;
        }
        WithoutFirstAt(bucket, req.ch, i);
        if i < |bucket| {
          bucket := bucket[..i] + bucket[i + 1..];
        }
        if |bucket| == 0 {
          waiters := waiters - {req.hash};
        } else {
          waiters := waiters[req.hash := bucket];
        }
      }
    }

    method HandleCleanup(now: int)
      modifies this`pending
      ensures Abs() == OnCleanup(old(Abs()), now)
    {
      var hashes := pending.Keys;
      while hashes != {}
        invariant hashes <= pending.Keys <= old(pending).Keys
        invariant forall h :: h in pending ==> pending[h] == old(pending)[h]
        invariant forall h :: h in old(pending) && h !in hashes ==> (h in pending <==> !Expired(old(Abs()), h, now))
        decreases |hashes|
      {
        var h :| h in hashes;
        if now > pending[h].expiresAt {
          pending := pending - {h};
        }
        hashes := hashes - {h};
      }
    }
  }

  // ----- What the turns do to the queue -----

  ghost predicate Listed(waiters: Waiters, w: Waiter) {
    w.hash in waiters && w in waiters[w.hash]
  }

  ghost predicate DistinctChans(bucket: seq<Waiter>) {
    forall i, j :: 0 <= i < j < |bucket| ==> bucket[i].ch != bucket[j].ch
  }

  /** No bucket is empty, every waiter is under its own hash, and no channel waits twice in one bucket. */
  ghost predicate Sound(waiters: Waiters) {
    forall h :: h in waiters ==>
      && waiters[h] != [] && DistinctChans(waiters[h])
      && forall i :: 0 <= i < |waiters[h]| ==> waiters[h][i].hash == h
  }

  lemma {:induction false} UnmatchedKeeps(bucket: seq<Waiter>, key: Hash, kind: Kind)
    ensures forall w :: w in Unmatched(bucket, key, kind) <==> w in bucket && !Matches(w, key, kind)
    ensures DistinctChans(bucket) ==> DistinctChans(Unmatched(bucket, key, kind))
  {
    if bucket != [] {
      var n := |bucket| - 1;
      UnmatchedKeeps(bucket[..n], key, kind);
      assert bucket == bucket[..n] + [bucket[n]];
      var rest := Unmatched(bucket[..n], key, kind);
      assert forall i :: 0 <= i < |rest| ==> rest[i] in bucket[..n];
    }
  }

  lemma DistinctGrows(first: Waiter, rest: seq<Waiter>)
    requires DistinctChans(rest) && forall w :: w in rest ==> w.ch != first.ch
    ensures DistinctChans([first] + rest)
  {
    assert forall i :: 0 <= i < |rest| ==> rest[i] in rest;
  }

  lemma {:induction false} WithoutFirstRemoves(bucket: seq<Waiter>, ch: ChanId)
    requires DistinctChans(bucket)
    ensures forall w :: w in WithoutFirst(bucket, ch) <==> w in bucket && w.ch != ch
    ensures DistinctChans(WithoutFirst(bucket, ch))
  {
    if bucket != [] {
      var first, tail := bucket[0], bucket[1..];
      WithoutFirstRemoves(tail, ch);
      assert bucket == [first] + tail;
      assert forall w :: w in tail ==> w.ch != first.ch;
      if first.ch != ch { DistinctGrows(first, WithoutFirst(tail, ch)); }
    }
  }

  lemma BucketReplaced(waiters: Waiters, key: Hash, bucket: seq<Waiter>)
    requires Sound(waiters) && DistinctChans(bucket) && forall w :: w in bucket ==> w.hash == key
    ensures Sound(WithBucket(waiters, key, bucket))
    ensures forall w :: Listed(WithBucket(waiters, key, bucket), w)
                   <==> if w.hash == key then w in bucket else Listed(waiters, w)
  {
    assert forall i :: 0 <= i < |bucket| ==> bucket[i] in bucket;
  }

  lemma PassUnlists(t: Tables, key: Hash, kind: Kind, r: Receipt)
    requires Sound(t.waiters)
    ensures var u := Pass(t, key, kind, r);
            && Sound(u.waiters) && u.pending == t.pending
            && forall w :: Listed(u.waiters, w) <==> Listed(t.waiters, w) && !Matches(w, key, kind)
  {
    if key in t.waiters {
      UnmatchedKeeps(t.waiters[key], key, kind);
      BucketReplaced(t.waiters, key, Unmatched(t.waiters[key], key, kind));
    }
  }

  /** A channel with no matching waiter is untouched; one with a matching waiter gets one push. */
  lemma {:induction false} PushAllAt(chans: Chans, bucket: seq<Waiter>, key: Hash, kind: Kind, r: Receipt, ch: ChanId)
    requires DistinctChans(bucket)
    ensures At(PushAll(chans, bucket, key, kind, r), ch)
         == if exists w :: w in bucket && w.ch == ch && Matches(w, key, kind) then Push(At(chans, ch), r)
            else At(chans, ch)
    ensures (forall w :: w in bucket ==> w.ch in chans) ==> PushAll(chans, bucket, key, kind, r).Keys == chans.Keys
  {
    if bucket != [] {
      var n := |bucket| - 1;
      PushAllAt(chans, bucket[..n], key, kind, r, ch);
      assert forall w :: w in bucket <==> w in bucket[..n] || w == bucket[n];
      assert forall w :: w in bucket[..n] ==> w.ch != bucket[n].ch;
      hide DistinctChans, Matches, Push;
    }
  }

  /** The effect of one pass on one channel whose only possible waiter is `w`. */
  lemma PassAnswers(t: Tables, key: Hash, kind: Kind, r: Receipt, w: Waiter)
    requires Sound(t.waiters)
    requires forall v :: Listed(t.waiters, v) && v.ch == w.ch ==> v == w
    ensures At(Pass(t, key, kind, r).chans, w.ch)
         == if Listed(t.waiters, w) && Matches(w, key, kind) then Push(At(t.chans, w.ch), r) else At(t.chans, w.ch)
  {
    if key in t.waiters {
      var bucket := t.waiters[key];
      PushAllAt(t.chans, bucket, key, kind, r, w.ch);
      forall v | v in bucket ensures Listed(t.waiters, v) {
        var i :| 0 <= i < |bucket| && bucket[i] == v;
      }
    }
  }

  /** Does this receipt answer this waiter? */
  predicate Answers(w: Waiter, r: Receipt) {
    Matches(w, r.txHash, ByTxHash) || Matches(w, r.rHash, ByReceiptHash)
  }

  /** A receipt is pushed to exactly the waiters it answers, once each, and takes exactly those off the queue. */
  lemma ReceiptAnswers(t: Tables, r: Receipt, now: int, w: Waiter)
    requires Sound(t.waiters)
    requires forall v :: Listed(t.waiters, v) && v.ch == w.ch ==> v == w
    ensures At(OnReceipt(t, r, now).chans, w.ch)
         == if Listed(t.waiters, w) && Answers(w, r) then Push(At(t.chans, w.ch), r) else At(t.chans, w.ch)
  {
    PassAnswers(t, r.txHash, ByTxHash, r, w);
    var u := Pass(t, r.txHash, ByTxHash, r);
    PassUnlists(t, r.txHash, ByTxHash, r);
    PassAnswers(u, r.rHash, ByReceiptHash, r, w);
  }

  lemma ReceiptUnlists(t: Tables, r: Receipt, now: int)
    requires Sound(t.waiters)
    ensures Sound(OnReceipt(t, r, now).waiters)
    ensures forall w :: Listed(OnReceipt(t, r, now).waiters, w) <==> Listed(t.waiters, w) && !Answers(w, r)
  {
    PassUnlists(t, r.txHash, ByTxHash, r);
    PassUnlists(Pass(t, r.txHash, ByTxHash, r), r.rHash, ByReceiptHash, r);
  }

  lemma PassKeepsChans(t: Tables, key: Hash, kind: Kind, r: Receipt)
    requires Sound(t.waiters) && forall w :: Listed(t.waiters, w) ==> w.ch in t.chans
    ensures Pass(t, key, kind, r).chans.Keys == t.chans.Keys
  {
    if key in t.waiters {
      var bucket := t.waiters[key];
      PushAllAt(t.chans, bucket, key, kind, r, 0);
      forall v | v in bucket ensures v.ch in t.chans {
        var i :| 0 <= i < |bucket| && bucket[i] == v;
        assert Listed(t.waiters, v);
      }
    }
  }

  lemma ReceiptKeepsChans(t: Tables, r: Receipt, now: int)
    requires Sound(t.waiters) && forall w :: Listed(t.waiters, w) ==> w.ch in t.chans
    ensures OnReceipt(t, r, now).chans.Keys == t.chans.Keys
  {
    PassKeepsChans(t, r.txHash, ByTxHash, r);
    PassUnlists(t, r.txHash, ByTxHash, r);
    PassKeepsChans(Pass(t, r.txHash, ByTxHash, r), r.rHash, ByReceiptHash, r);
  }

  lemma CancelUnlists(t: Tables, req: Request)
    requires Sound(t.waiters)
    ensures Sound(OnCancel(t, req).waiters)
    ensures forall w :: Listed(OnCancel(t, req).waiters, w)
                   <==> Listed(t.waiters, w) && !(w.hash == req.hash && w.ch == req.ch)
  {
    if req.hash in t.waiters {
      WithoutFirstRemoves(t.waiters[req.hash], req.ch);
      BucketReplaced(t.waiters, req.hash, WithoutFirst(t.waiters[req.hash], req.ch));
    }
  }

  lemma RegisterLists(t: Tables, req: Request, now: int)
    requires Sound(t.waiters) && forall w :: Listed(t.waiters, w) ==> w.ch != req.ch
    ensures Sound(OnRegister(t, req, now).waiters)
    ensures forall w :: Listed(OnRegister(t, req, now).waiters, w)
                   <==> Listed(t.waiters, w) || (req.hash !in t.pending && w == Waiter(req.ch, req.kind, req.hash))
  {
    if req.hash !in t.pending {
      var bucket := if req.hash in t.waiters then t.waiters[req.hash] else [];
      forall i | 0 <= i < |bucket| ensures bucket[i].ch != req.ch {
        assert Listed(t.waiters, bucket[i]);
      }
      BucketReplaced(t.waiters, req.hash, bucket + [Waiter(req.ch, req.kind, req.hash)]);
    }
  }
}
