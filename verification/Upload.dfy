/** Chunked proof upload: the hook-payload account of the program, the clients that
    cut a proof into write transactions, and a network that may drop, duplicate or
    reorder them. */
module Upload {
  import opened Arithmetic
  import Convert
  import opened Wrappers

  type Byte = Convert.Byte

  const MAX_HOOK_PROOF_BYTES: nat := 16_384
  const REALLOC: nat := 10_240
  const WRITES_PER_TX: nat := 2

  datatype Error =
    | HookPayloadInvalid | PayloadAlreadyFinalized | ChunkNotSequential | ChunkOutOfBounds
    | NotAllocated | ZeroNullifier | InvalidTransferAmount | ProofIncomplete

  // ---------------------------------------------------------- the program

  /** `size` is the length of the account data; `proof` is the vector inside it, empty
      until the account has been grown to its target. */
  datatype Payload = Payload(expected: nat, highWater: nat, size: nat, proof: seq<Byte>, finalized: bool)

  function Init(header: nat, length: nat): Result<Payload, Error> {
    if 0 < length <= MAX_HOOK_PROOF_BYTES then Ok(Payload(length, 0, header, [], false)) else Err(HookPayloadInvalid)
  }

  function Resize(p: Payload, header: nat): Result<Payload, Error> {
    var target := header + p.expected;
    if p.finalized then Err(PayloadAlreadyFinalized)
    else if p.size >= target then Ok(p)
    else if p.size + REALLOC < target then Ok(p.(size := p.size + REALLOC))
    else Ok(p.(size := target, proof := Convert.Zeros(p.expected)))
  }

  datatype Write = Write(offset: nat, chunk: seq<Byte>)

  function WriteProof(p: Payload, w: Write): Result<Payload, Error> {
    var end := w.offset + |w.chunk|;
    if p.finalized then Err(PayloadAlreadyFinalized)
    else if w.offset != p.highWater then Err(ChunkNotSequential)
    else if end > p.expected then Err(ChunkOutOfBounds)
    else if end > |p.proof| then Err(NotAllocated)   // the slice panics, the transaction fails
    else Ok(p.(proof := p.proof[..w.offset] + w.chunk + p.proof[end..], highWater := end))
  }

  function Finalize(p: Payload, nullifierIsZero: bool, amount: nat): Result<Payload, Error> {
    if p.finalized then Err(PayloadAlreadyFinalized)
    else if nullifierIsZero then Err(ZeroNullifier)
    else if amount == 0 then Err(InvalidTransferAmount)
    else if p.highWater != p.expected then Err(ProofIncomplete)
    else Ok(p.(finalized := true))
  }

  type Tx = seq<Write>

  /** A transaction is atomic: all its writes take effect, or none. */
  function WriteAll(p: Payload, tx: Tx): Result<Payload, Error>
    decreases |tx|
  {
    if tx == [] then Ok(p)
    else
      match WriteProof(p, tx[0])
      case Err(e) => Err(e)
      case Ok(q) => WriteAll(q, tx[1..])
  }

  function Execute(p: Payload, tx: Tx): Payload {
    match WriteAll(p, tx)
    case Ok(q) => q
    case Err(_) => p
  }

  // ----------------------------------------------------------- the clients

  function Min(a: int, b: int): int { if a <= b then a else b }

  /** The writes for the part of the proof from `offset` on. */
  function Chunks(proof: seq<Byte>, chunkSize: nat, offset: nat): seq<Write>
    requires chunkSize >= 1
    decreases |proof| - offset
  {
    if offset >= |proof| then []
    else [Write(offset, proof[offset..Min(offset + chunkSize, |proof|)])] + Chunks(proof, chunkSize, offset + chunkSize)
  }

  function Batches(writes: seq<Write>): seq<Tx> {
    if writes == [] then []
    else [writes[..Min(WRITES_PER_TX, |writes|)]] + Batches(writes[Min(WRITES_PER_TX, |writes|)..])
  }

  function Transactions(proof: seq<Byte>, chunkSize: nat): seq<Tx>
    requires chunkSize >= 1
  {
    Batches(Chunks(proof, chunkSize, 0))
  }

  /** `buildWriteIxs`, and the first loop of `uploadProofChunked`. */
  method BuildWrites(proof: seq<Byte>, chunkSize: nat) returns (writes: seq<Write>)
    requires chunkSize >= 1
    ensures writes == Chunks(proof, chunkSize, 0)
  {
    writes := [];
    var offset := 0;
    while offset < |proof|
      invariant writes + Chunks(proof, chunkSize, offset) == Chunks(proof, chunkSize, 0)
      decreases |proof| - offset
    {
      var end := Min(offset + chunkSize, |proof|);
      writes := writes + [Write(offset, proof[offset..end])];
      offset := offset + chunkSize;
    }
  }

  /** The batching loop. */
  method BuildTransactions(writes: seq<Write>) returns (txs: seq<Tx>)
    ensures txs == Batches(writes)
  {
    txs := [];
    var i := 0;
    while i < |writes|
      invariant 0 <= i
      invariant i <= |writes| ==> txs + Batches(writes[i..]) == Batches(writes)
      invariant i > |writes| ==> txs == Batches(writes)
    {
      var end := Min(i + WRITES_PER_TX, |writes|);
      var tx := writes[i..end];
      assert writes[i..][..Min(WRITES_PER_TX, |writes| - i)] == tx;
      assert writes[i..][Min(WRITES_PER_TX, |writes| - i)..] == writes[end..];
      txs := txs + [tx];
      i := i + WRITES_PER_TX;
    }
  }

  // ------------------------------------------------------------ safety

  /** The account is allocated for this proof and holds a prefix of it. */
  predicate HoldsPrefix(p: Payload, proof: seq<Byte>) {
    && p.expected == |p.proof| == |proof|
    && p.highWater <= |proof|
    && p.proof[..p.highWater] == proof[..p.highWater]
  }

  /** A write that carries the right bytes for its offset. */
  predicate Genuine(w: Write, proof: seq<Byte>) {
    w.offset + |w.chunk| <= |proof| && w.chunk == proof[w.offset..w.offset + |w.chunk|]
  }

  lemma WriteKeepsPrefix(p: Payload, w: Write, proof: seq<Byte>)
    requires HoldsPrefix(p, proof) && Genuine(w, proof)
    ensures var r := WriteProof(p, w);
            && (r.Ok? <==> !p.finalized && w.offset == p.highWater)
            && (r.Ok? ==> HoldsPrefix(r.value, proof) && r.value.highWater == w.offset + |w.chunk| && !r.value.finalized)
  {
    if !p.finalized && w.offset == p.highWater {
      var q := WriteProof(p, w).value;
      var end := w.offset + |w.chunk|;
      assert q.proof[..end] == p.proof[..w.offset] + w.chunk;
      assert proof[..end] == proof[..w.offset] + proof[w.offset..end];
    }
  }

  /** Any write to an allocated payload: accepted exactly at the high-water mark and within
      the announced length; it then replaces those bytes and no others. */
  lemma WriteAcceptedIff(p: Payload, w: Write)
    requires p.expected == |p.proof|
    ensures var r := WriteProof(p, w);
            var end := w.offset + |w.chunk|;
            && (r.Ok? <==> !p.finalized && w.offset == p.highWater && end <= p.expected)
            && (r.Ok? ==> && r.value.highWater == end && |r.value.proof| == |p.proof| && r.value.proof[w.offset..end] == w.chunk
                          && forall i :: 0 <= i < |p.proof| && !(w.offset <= i < end) ==> r.value.proof[i] == p.proof[i])
            && (r.Err? && !p.finalized ==> r.error == if w.offset != p.highWater then ChunkNotSequential else ChunkOutOfBounds)
  {
  }

  lemma {:induction false} TxKeepsPrefix(p: Payload, tx: Tx, proof: seq<Byte>)
    requires HoldsPrefix(p, proof) && forall i :: 0 <= i < |tx| ==> Genuine(tx[i], proof)
    ensures WriteAll(p, tx).Ok? ==> HoldsPrefix(WriteAll(p, tx).value, proof)
    decreases |tx|
  {
    if tx != [] {
      WriteKeepsPrefix(p, tx[0], proof);
      if WriteProof(p, tx[0]).Ok? {
        TxKeepsPrefix(WriteProof(p, tx[0]).value, tx[1..], proof);
      }
    }
  }

  lemma {:induction false} ChunksGenuine(proof: seq<Byte>, chunkSize: nat, offset: nat)
    requires chunkSize >= 1
    ensures forall w :: w in Chunks(proof, chunkSize, offset) ==> Genuine(w, proof)
    decreases |proof| - offset
  {
    if offset < |proof| {
      ChunksGenuine(proof, chunkSize, offset + chunkSize);
    }
  }

  lemma {:induction false} BatchesGenuine(writes: seq<Write>, proof: seq<Byte>)
    requires forall w :: w in writes ==> Genuine(w, proof)
    ensures forall tx, w :: tx in Batches(writes) && w in tx ==> Genuine(w, proof)
    decreases |writes|
  {
    if writes != [] {
      var k := Min(WRITES_PER_TX, |writes|);
      assert forall w :: w in writes[k..] ==> w in writes;
      assert forall w :: w in writes[..k] ==> w in writes;
      BatchesGenuine(writes[k..], proof);
    }
  }

  /** The account after the network delivers transactions by index: dropped ones do not
      occur in `order`, duplicated ones occur twice, reordering is arbitrary. */
  function Deliver(p: Payload, txs: seq<Tx>, order: seq<nat>): Payload
    requires forall i :: 0 <= i < |order| ==> order[i] < |txs|
  {
    if order == [] then p
    else
      var n := |order| - 1;
      Execute(Deliver(p, txs, order[..n]), txs[order[n]])
  }

  /** Whatever the network does, the account holds a prefix of the proof, and a payload
      that can be finalized holds the whole proof. */
  lemma {:induction false} AlwaysAPrefix(p: Payload, proof: seq<Byte>, chunkSize: nat, order: seq<nat>)
    requires chunkSize >= 1 && HoldsPrefix(p, proof)
    requires forall i :: 0 <= i < |order| ==> order[i] < |Transactions(proof, chunkSize)|
    ensures var q := Deliver(p, Transactions(proof, chunkSize), order);
            && HoldsPrefix(q, proof)
            && forall zero, amount :: Finalize(q, zero, amount).Ok? ==> q.proof == proof
    decreases |order|
  {
    if order != [] {
      var n := |order| - 1;
      AlwaysAPrefix(p, proof, chunkSize, order[..n]);
      ChunksGenuine(proof, chunkSize, 0);
      BatchesGenuine(Chunks(proof, chunkSize, 0), proof);
      var tx := Transactions(proof, chunkSize)[order[n]];
      assert tx in Batches(Chunks(proof, chunkSize, 0));
      assert forall i :: 0 <= i < |tx| ==> tx[i] in tx;
      TxKeepsPrefix(Deliver(p, Transactions(proof, chunkSize), order[..n]), tx, proof);
    }
    var q := Deliver(p, Transactions(proof, chunkSize), order);
    assert q.proof[..|q.proof|] == q.proof && proof[..|proof|] == proof;
  }

  // ------------------------------------------- exactly when an upload completes

  function WriteAt(proof: seq<Byte>, chunkSize: nat, offset: nat): Write
    requires offset <= |proof|
  {
    Write(offset, proof[offset..Min(offset + chunkSize, |proof|)])
  }

  /** The transaction that starts at `offset`. */
  function TxFrom(proof: seq<Byte>, chunkSize: nat, offset: nat): Tx
    requires offset < |proof|
  {
    [WriteAt(proof, chunkSize, offset)] +
    if offset + chunkSize < |proof| then [WriteAt(proof, chunkSize, offset + chunkSize)] else []
  }

  lemma FirstBatch(proof: seq<Byte>, chunkSize: nat, offset: nat)
    requires chunkSize >= 1 && offset < |proof|
    ensures Batches(Chunks(proof, chunkSize, offset)) ==
            [TxFrom(proof, chunkSize, offset)] + Batches(Chunks(proof, chunkSize, offset + 2 * chunkSize))
  {
    var writes, rest := Chunks(proof, chunkSize, offset), Chunks(proof, chunkSize, offset + 2 * chunkSize);
    assert Chunks(proof, chunkSize, offset + chunkSize) ==
      if offset + chunkSize < |proof| then [WriteAt(proof, chunkSize, offset + chunkSize)] + rest else [];
    assert writes == TxFrom(proof, chunkSize, offset) + rest;
    var k := Min(WRITES_PER_TX, |writes|);
    assert k == |TxFrom(proof, chunkSize, offset)|;
    assert writes[..k] == TxFrom(proof, chunkSize, offset) && writes[k..] == rest;
  }

  /** Offset of the first byte of transaction `j`. */
  function Start(chunkSize: nat, j: nat): nat { 2 * chunkSize * j }

  lemma StartStep(chunkSize: nat, j: nat)
    ensures Start(chunkSize, 0) == 0 && Start(chunkSize, j + 1) == Start(chunkSize, j) + 2 * chunkSize
  {
  }

  lemma StartsGrow(chunkSize: nat, g: nat, j: nat)
    requires chunkSize >= 1 && g < j
    ensures Start(chunkSize, g) < Start(chunkSize, j)
  {
    var stride := 2 * chunkSize;
    ProductAtLeast(stride, j - g);
    assert stride * j == stride * g + stride * (j - g);
  }

  /** Transaction `j` starts at `2 * chunkSize * j`, and that is below the proof length
      exactly for the transactions that exist. */
  lemma {:induction false} TxAt(proof: seq<Byte>, chunkSize: nat, offset: nat, j: nat)
    requires chunkSize >= 1
    ensures var txs := Batches(Chunks(proof, chunkSize, offset));
            var start := offset + Start(chunkSize, j);
            && (j < |txs| <==> start < |proof|)
            && (j < |txs| ==> txs[j] == TxFrom(proof, chunkSize, start))
    decreases j
  {
    hide Start, TxFrom;
    StartStep(chunkSize, if j == 0 then 0 else j - 1);
    if offset < |proof| {
      FirstBatch(proof, chunkSize, offset);
      if j > 0 {
        TxAt(proof, chunkSize, offset + 2 * chunkSize, j - 1);
      }
    }
  }

  lemma TxRuns(p: Payload, proof: seq<Byte>, chunkSize: nat, offset: nat)
    requires chunkSize >= 1 && offset < |proof| && HoldsPrefix(p, proof) && !p.finalized
    ensures var r := WriteAll(p, TxFrom(proof, chunkSize, offset));
            && (r.Ok? <==> p.highWater == offset)
            && (r.Ok? ==> HoldsPrefix(r.value, proof) && !r.value.finalized &&
                          r.value.highWater == Min(offset + 2 * chunkSize, |proof|))
  {
    var w := WriteAt(proof, chunkSize, offset);
    WriteKeepsPrefix(p, w, proof);
    if offset + chunkSize < |proof| {
      var w' := WriteAt(proof, chunkSize, offset + chunkSize);
      WriteTwo(p, w, w');
      assert TxFrom(proof, chunkSize, offset) == [w, w'];
      if p.highWater == offset {
        WriteKeepsPrefix(WriteProof(p, w).value, w', proof);
      }
    } else {
      assert TxFrom(proof, chunkSize, offset) == [w] && [w][1..] == [];
    }
  }

  lemma WriteTwo(p: Payload, w: Write, w': Write)
    ensures WriteAll(p, [w, w']) == if WriteProof(p, w).Ok? then WriteProof(WriteProof(p, w).value, w') else WriteProof(p, w)
  {
    assert [w, w'][1..] == [w'] && [w'][1..] == [];
    if WriteProof(p, w).Ok? {
      var q := WriteProof(p, w).value;
      assert WriteAll(q, [w']) == WriteProof(q, w');
    }
  }

  /** How many transactions, counted from the first, have been seen in order. */
  function Progress(order: seq<nat>): nat {
    if order == [] then 0
    else
      var g := Progress(order[..|order| - 1]);
      if order[|order| - 1] == g then g + 1 else g
  }

  /** The account after the first `g` transactions. */
  predicate Reached(p: Payload, proof: seq<Byte>, chunkSize: nat, g: nat) {
    HoldsPrefix(p, proof) && !p.finalized && p.highWater == Min(Start(chunkSize, g), |proof|)
  }

  lemma OneDelivery(p: Payload, proof: seq<Byte>, chunkSize: nat, g: nat, j: nat)
    requires chunkSize >= 1 && g <= |Transactions(proof, chunkSize)| && j < |Transactions(proof, chunkSize)|
    requires Reached(p, proof, chunkSize, g)
    ensures var r := WriteAll(p, Transactions(proof, chunkSize)[j]);
            && (r.Ok? <==> j == g)
            && (r.Ok? ==> Reached(r.value, proof, chunkSize, g + 1))
  {
    TxAt(proof, chunkSize, 0, j);
    TxAt(proof, chunkSize, 0, g);
    TxRuns(p, proof, chunkSize, Start(chunkSize, j));
    StartStep(chunkSize, g);
    hide WriteAll, HoldsPrefix, TxFrom, Start;
    if g < j {
      StartsGrow(chunkSize, g, j);
    } else if j < g {
      StartsGrow(chunkSize, j, g);
    }
  }

  lemma {:induction false} DeliveryProgress(p: Payload, proof: seq<Byte>, chunkSize: nat, order: seq<nat>)
    requires chunkSize >= 1 && Reached(p, proof, chunkSize, 0)
    requires forall i :: 0 <= i < |order| ==> order[i] < |Transactions(proof, chunkSize)|
    ensures Progress(order) <= |Transactions(proof, chunkSize)|
    ensures Reached(Deliver(p, Transactions(proof, chunkSize), order), proof, chunkSize, Progress(order))
    decreases |order|
  {
    if order != [] {
      var n := |order| - 1;
      DeliveryProgress(p, proof, chunkSize, order[..n]);
      hide Reached, Transactions, WriteAll;
      OneDelivery(Deliver(p, Transactions(proof, chunkSize), order[..n]), proof, chunkSize, Progress(order[..n]), order[n]);
    }
  }

  /** `pos` are increasing positions of 0, 1, 2, ... in `order`. */
  predicate InOrderAt(order: seq<nat>, pos: seq<nat>) {
    && (forall j :: 0 <= j < |pos| ==> pos[j] < |order| && order[pos[j]] == j)
    && (forall i, j :: 0 <= i < j < |pos| ==> pos[i] < pos[j])
  }

  /** All `k` transactions occur in `order`, in order, possibly with others in between. */
  ghost predicate Embeds(order: seq<nat>, k: nat) {
    exists pos: seq<nat> :: |pos| == k && InOrderAt(order, pos)
  }

  lemma {:induction false} ProgressReaches(order: seq<nat>, pos: seq<nat>)
    requires InOrderAt(order, pos)
    ensures Progress(order) >= |pos|
    decreases |order|
  {
    if pos != [] {
      var n, m := |order| - 1, |pos| - 1;
      if pos[m] == n {
        ProgressReaches(order[..n], pos[..m]);
      } else {
        assert forall j :: 0 <= j < m ==> pos[j] < pos[m];
        ProgressReaches(order[..n], pos);
      }
    }
  }

  lemma {:induction false} ProgressPositions(order: seq<nat>) returns (pos: seq<nat>)
    ensures |pos| == Progress(order) && InOrderAt(order, pos)
    decreases |order|
  {
    if order == [] {
      pos := [];
    } else {
      var n := |order| - 1;
      pos := ProgressPositions(order[..n]);
      if order[n] == |pos| {
        pos := pos + [n];
      }
    }
  }

  lemma PrefixEmbeds(order: seq<nat>, k: nat)
    requires k <= Progress(order)
    ensures Embeds(order, k)
  {
    var pos := ProgressPositions(order);
    assert InOrderAt(order, pos[..k]);
  }

  /** The upload theorem: on a fresh, allocated payload, for every proof, chunk size and
      behaviour of the network, finalizing with a nullifier and an amount that are not zero
      is accepted exactly when the delivered sequence contains all write transactions in
      order; the payload then holds the proof. */
  lemma UploadCompleteIff(p: Payload, proof: seq<Byte>, chunkSize: nat, order: seq<nat>, nullifierIsZero: bool, amount: nat)
    requires chunkSize >= 1 && Reached(p, proof, chunkSize, 0)
    requires forall i :: 0 <= i < |order| ==> order[i] < |Transactions(proof, chunkSize)|
    ensures var q := Deliver(p, Transactions(proof, chunkSize), order);
            Finalize(q, nullifierIsZero, amount) ==
            if nullifierIsZero then Err(ZeroNullifier)
            else if amount == 0 then Err(InvalidTransferAmount)
            else if Embeds(order, |Transactions(proof, chunkSize)|) then Ok(Payload(|proof|, |proof|, q.size, proof, true))
            else Err(ProofIncomplete)
  {
    var k := |Transactions(proof, chunkSize)|;
    DeliveryProgress(p, proof, chunkSize, order);
    TxAt(proof, chunkSize, 0, Progress(order));
    var q := Deliver(p, Transactions(proof, chunkSize), order);
    assert q.proof[..|q.proof|] == q.proof && proof[..|proof|] == proof;
    hide Deliver, Transactions, Progress, Embeds;
    if Progress(order) >= k {
      PrefixEmbeds(order, k);
    } else if Embeds(order, k) {
      EmbeddedReaches(order, k);
    }
  }

  lemma EmbeddedReaches(order: seq<nat>, k: nat)
    requires Embeds(order, k)
    ensures Progress(order) >= k
  {
    var pos :| |pos| == k && InOrderAt(order, pos);
    ProgressReaches(order, pos);
  }

  /** A finalized payload is final: no resize, write or second finalization is accepted. */
  lemma FinalizedIsFrozen(p: Payload, header: nat, tx: Tx, nullifierIsZero: bool, amount: nat)
    requires p.finalized
    ensures Resize(p, header) == Err(PayloadAlreadyFinalized) && Finalize(p, nullifierIsZero, amount) == Err(PayloadAlreadyFinalized)
    ensures Execute(p, tx) == p && (tx != [] ==> WriteAll(p, tx) == Err(PayloadAlreadyFinalized))
  {
  }

  /** In-order delivery without loss completes the upload. */
  lemma InOrderDeliveryCompletes(p: Payload, proof: seq<Byte>, chunkSize: nat, amount: nat)
    requires chunkSize >= 1 && Reached(p, proof, chunkSize, 0) && amount > 0
    ensures var k := |Transactions(proof, chunkSize)|;
            var q := Deliver(p, Transactions(proof, chunkSize), seq(k, i => i));
            Finalize(q, false, amount).Ok? && q.proof == proof
  {
    var order := seq(|Transactions(proof, chunkSize)|, i => i);
    assert InOrderAt(order, order);
    UploadCompleteIff(p, proof, chunkSize, order, false, amount);
  }

  /** What a last write that succeeds proves: whatever was delivered before, the last
      transaction succeeds if and only if all others were seen in order and it was not,
      and the account then holds the whole proof. */
  lemma LastWriteProvesAll(p: Payload, proof: seq<Byte>, chunkSize: nat, order: seq<nat>)
    requires chunkSize >= 1 && proof != [] && Reached(p, proof, chunkSize, 0)
    requires forall i :: 0 <= i < |order| ==> order[i] < |Transactions(proof, chunkSize)|
    ensures |Transactions(proof, chunkSize)| > 0
    ensures var txs := Transactions(proof, chunkSize);
            var r := WriteAll(Deliver(p, txs, order), txs[|txs| - 1]);
            && (r.Ok? <==> Progress(order) == |txs| - 1)
            && (r.Ok? ==> r.value.proof == proof && r.value.highWater == |proof|)
  {
    var txs := Transactions(proof, chunkSize);
    TxAt(proof, chunkSize, 0, 0);
    TxAt(proof, chunkSize, 0, |txs|);
    DeliveryProgress(p, proof, chunkSize, order);
    var q := Deliver(p, txs, order);
    hide Deliver, Transactions, WriteAll, Progress;
    OneDelivery(q, proof, chunkSize, Progress(order), |txs| - 1);
    var r := WriteAll(q, txs[|txs| - 1]);
    if r.Ok? {
      assert r.value.proof[..|proof|] == r.value.proof && proof[..|proof|] == proof;
    }
  }

  /** `sendWritesBatch` returns once the last write has landed, without looking at whether
      it succeeded.  It has then uploaded the proof if and only if the writes delivered
      up to it contain all transactions in order. */
  lemma LandedLastWriteIff(p: Payload, proof: seq<Byte>, chunkSize: nat, before: seq<nat>, amount: nat)
    requires chunkSize >= 1 && proof != [] && Reached(p, proof, chunkSize, 0) && amount > 0
    requires forall i :: 0 <= i < |before| ==> before[i] < |Transactions(proof, chunkSize)|
    ensures |Transactions(proof, chunkSize)| > 0
    ensures var txs := Transactions(proof, chunkSize);
            Finalize(Deliver(p, txs, before + [|txs| - 1]), false, amount).Ok? <==> Progress(before) >= |txs| - 1
  {
    var txs := Transactions(proof, chunkSize);
    TxAt(proof, chunkSize, 0, 0);
    var order := before + [|txs| - 1];
    assert order[..|before|] == before;
    DeliveryProgress(p, proof, chunkSize, order);
    DeliveryProgress(p, proof, chunkSize, before);
    TxAt(proof, chunkSize, 0, Progress(order));
    hide Deliver, Transactions, HoldsPrefix;
  }

  lemma NothingToSend(proof: seq<Byte>, chunkSize: nat)
    requires chunkSize >= 1
    ensures proof == [] ==> Transactions(proof, chunkSize) == []
  {
  }

  /** A last write that lands alone fails, the client returns, the proof is incomplete. */
  lemma LandedFailureUnnoticed(p: Payload, proof: seq<Byte>, chunkSize: nat, amount: nat)
    requires chunkSize >= 1 && Reached(p, proof, chunkSize, 0) && amount > 0
    requires |Transactions(proof, chunkSize)| >= 2
    ensures var txs := Transactions(proof, chunkSize);
            Finalize(Deliver(p, txs, [|txs| - 1]), false, amount) == Err(ProofIncomplete)
  {
    hide Deliver, Transactions, Reached, Finalize, Embeds;
    var txs := Transactions(proof, chunkSize);
    NothingToSend(proof, chunkSize);
    assert [] + [|txs| - 1] == [|txs| - 1];
    LandedLastWriteIff(p, proof, chunkSize, [], amount);
    UploadCompleteIff(p, proof, chunkSize, [|txs| - 1], false, amount);
  }

  // -------------------------------------------------------------- allocation

  function Resized(header: nat, length: nat, times: nat): Payload
    requires 0 < length <= MAX_HOOK_PROOF_BYTES
    ensures !Resized(header, length, times).finalized
  {
    if times == 0 then Init(header, length).value
    else Resize(Resized(header, length, times - 1), header).value
  }

  /** `Math.ceil(length / 10_240)`. */
  function ResizeCount(length: nat): nat { (length + REALLOC - 1) / REALLOC }

  /** The front end's precomputed number of resizes is the least that allocates the proof
      buffer, and further ones change nothing. */
  lemma {:induction false} ResizeCountIsExact(header: nat, length: nat, times: nat)
    requires 0 < length <= MAX_HOOK_PROOF_BYTES
    ensures var p := Resized(header, length, times);
            && p.size == Min(header + length, header + 10_240 * times)
            && p.expected == length && p.highWater == 0
            && (HoldsPrefix(p, Convert.Zeros(length)) <==> times >= ResizeCount(length))
            && p.proof == (if times >= ResizeCount(length) then Convert.Zeros(length) else [])
  {
    if times > 0 {
      ResizeCountIsExact(header, length, times - 1);
    }
    assert Convert.Zeros(length)[..0] == [];
  }

  // ------------------------------------------------------- the whole upload

  /** `uploadProofChunked`: every step is confirmed before the next, so the account is
      driven from initialisation to finalisation. */
  method UploadProofChunked(proof: seq<Byte>, rawChunkSize: int, header: nat, nullifierIsZero: bool, amount: nat)
    returns (r: Result<Payload, Error>)
    ensures r.Ok? <==> 0 < |proof| <= 16_384 && !nullifierIsZero && amount > 0
    ensures r.Ok? ==> r.value.finalized && r.value.proof == proof
  {
    var chunkSize := if rawChunkSize >= 1 then rawChunkSize else 1;
    if !(0 < |proof| <= MAX_HOOK_PROOF_BYTES) {
      return Err(HookPayloadInvalid);
    }
    var p := Init(header, |proof|).value;
    while p.size < header + |proof|
      invariant p.expected == |proof| && p.highWater == 0 && !p.finalized
      invariant p.size >= header + |proof| ==> |p.proof| == |proof|
      decreases header + |proof| - p.size
    {
      p := Resize(p, header).value;
    }
    var writes := BuildWrites(proof, chunkSize);
    var txs := BuildTransactions(writes);
    ghost var start := p;
    for i := 0 to |txs|
      invariant p == Deliver(start, txs, seq(i, k => k))
    {
      ghost var order := seq(i + 1, k => k);
      assert order[..i] == seq(i, k => k);
      p := Execute(p, txs[i]);
    }
    ghost var order := seq(|txs|, k => k);
    assert InOrderAt(order, order);
    UploadCompleteIff(start, proof, chunkSize, order, nullifierIsZero, amount);
    r := Finalize(p, nullifierIsZero, amount);
  }
}
