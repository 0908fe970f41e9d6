// Equivocation proofs: each miner's bond is taken at most once.

module Slashing {
  import opened Blocks
  import opened Bytes
  import opened Records
  import opened Targets
  import opened Transactions
  import opened Wrappers

  datatype Proof = Proof(miner: MinerId, hash1: Hash32, hash2: Hash32, block1: Option<Block>, block2: Option<Block>)

  datatype ProofError = BlockMissing | NoPubkey | NoSignature | BadPubkey | BadSignature

  datatype SlashRecord = SlashRecord(miner: MinerId, amount: u64)

  // ---- Verifying a proof ----

  // The miner a block is signed by.
  function SignerOf(c: Crypto, b: Block): Result<MinerId, ProofError> {
    if b.pubkey.None? then Err(NoPubkey)
    else if b.signature.None? then Err(NoSignature)
    else
      match c.minerIdOf(b.pubkey.value)
      case None => Err(BadPubkey)
      case Some(id) =>
        if c.ecdsa(b.pubkey.value, b.signature.value, HeaderHash(c, b.header)) then Ok(id) else Err(BadSignature)
  }

  // A block counts as signed by the miner its key belongs to, if that key signed its header's hash.
  lemma SignerExactly(c: Crypto, b: Block, id: MinerId)
    ensures SignerOf(c, b) == Ok(id) <==>
      && b.pubkey.Some? && b.signature.Some? && c.minerIdOf(b.pubkey.value) == Some(id)
      && c.ecdsa(b.pubkey.value, b.signature.value, HeaderHash(c, b.header))
  {}

  predicate PowMet(c: Crypto, b: Block) { Num(HeaderHash(c, b.header)) <= Num(b.header.difficulty) }

  function Verified(c: Crypto, p: Proof): Result<bool, ProofError> {
    if p.block1.None? || p.block2.None? then Err(BlockMissing)
    else
      var b1, b2 := p.block1.value, p.block2.value;
      var h1, h2 := HeaderHash(c, b1.header), HeaderHash(c, b2.header);
      if b1.header.prevHash != b2.header.prevHash || b1.header.epochIndex != b2.header.epochIndex then Ok(false)
      else if h1 != p.hash1 || h2 != p.hash2 || h1 == h2 then Ok(false)
      else if !PowMet(c, b1) || !PowMet(c, b2) then Ok(false)
      else
        match SignerOf(c, b1)
        case Err(e) => Err(e)
        case Ok(m1) =>
          match SignerOf(c, b2)
          case Err(e) => Err(e)
          case Ok(m2) => Ok(m1 == m2 == p.miner)
  }

  // A proof that verifies shows one miner's signatures on two different valid headers with
  // one parent and one epoch; nothing weaker does.
  ghost predicate Equivocates(c: Crypto, miner: MinerId, b1: Block, b2: Block) {
    && b1.header != b2.header
    && b1.header.prevHash == b2.header.prevHash && b1.header.epochIndex == b2.header.epochIndex
    && PowMet(c, b1) && PowMet(c, b2)
    && SignerOf(c, b1) == Ok(miner) && SignerOf(c, b2) == Ok(miner)
  }

  // The proof built from two blocks, naming the signer of the first.
  function FromBlocks(c: Crypto, b1: Block, b2: Block): Result<Proof, ProofError> {
    match SignerOf(c, b1)
    case Err(e) => Err(e)
    case Ok(id) => Ok(Proof(id, HeaderHash(c, b1.header), HeaderHash(c, b2.header), Some(b1), Some(b2)))
  }

  // The proof built from two blocks verifies exactly when their hashes differ and one miner
  // equivocates with them, and then it names that miner.
  lemma FromBlocksVerifiesExactly(c: Crypto, b1: Block, b2: Block)
    ensures (exists miner :: Equivocates(c, miner, b1, b2) && HeaderHash(c, b1.header) != HeaderHash(c, b2.header))
       <==> FromBlocks(c, b1, b2).Ok? && Verified(c, FromBlocks(c, b1, b2).value) == Ok(true)
    ensures forall miner :: Equivocates(c, miner, b1, b2) && FromBlocks(c, b1, b2).Ok? ==> FromBlocks(c, b1, b2).value.miner == miner
  {
    if FromBlocks(c, b1, b2).Ok? && Verified(c, FromBlocks(c, b1, b2).value) == Ok(true) {
      assert Equivocates(c, FromBlocks(c, b1, b2).value.miner, b1, b2);
    }
  }

  // ---- Honest miners ----

  // Every block that counts as signed by the miner is one the miner did sign, and the miner
  // never signed two different headers with one parent and epoch.
  ghost predicate Honest(c: Crypto, miner: MinerId, signed: set<Header>) {
    && (forall b {:trigger SignerOf(c, b)} :: SignerOf(c, b) == Ok(miner) ==> b.header in signed)
    && (forall h, k :: h in signed && k in signed && h.prevHash == k.prevHash && h.epochIndex == k.epochIndex ==> h == k)
  }

  // No proof against an honest miner verifies, whatever blocks it carries.
  lemma HonestNotProven(c: Crypto, miner: MinerId, signed: set<Header>, p: Proof)
    requires Honest(c, miner, signed) && p.miner == miner
    ensures Verified(c, p) != Ok(true)
  {}

  // ---- The pool ----

  // Bonds left, miners slashed so far and the records of this round, after n proofs.
  type Verdict = Proof -> bool

  function Guilty(c: Crypto): Verdict { p => Verified(c, p) == Ok(true) }

  datatype Round = Round(bonds: map<MinerId, Bond>, slashed: set<MinerId>, records: seq<SlashRecord>)

  function Executed(guilty: Verdict, r: Round, p: Proof): Round {
    if p.miner in r.slashed || !guilty(p) || p.miner !in r.bonds then r
    else Round(r.bonds - {p.miner}, r.slashed + {p.miner}, r.records + [SlashRecord(p.miner, r.bonds[p.miner].amount)])
  }

  function ExecutedAll(guilty: Verdict, r: Round, proofs: seq<Proof>, n: nat): Round
    requires n <= |proofs|
  {
    if n == 0 then r else Executed(guilty, ExecutedAll(guilty, r, proofs, n - 1), proofs[n - 1])
  }

  predicate SameEvidence(p: Proof, q: Proof) {
    p.miner == q.miner && p.hash1 == q.hash1 && p.hash2 == q.hash2
  }

  function Queued(pending: seq<Proof>, slashed: set<MinerId>, p: Proof): seq<Proof> {
    if p.miner in slashed || exists i :: 0 <= i < |pending| && SameEvidence(pending[i], p) then pending else pending + [p]
  }

  // No two proofs wait on the same evidence, and none against a miner slashed before.
  ghost predicate QueueRight(pending: seq<Proof>, slashed: set<MinerId>) {
    && (forall i, j :: 0 <= i < j < |pending| ==> !SameEvidence(pending[i], pending[j]))
    && (forall i :: 0 <= i < |pending| ==> pending[i].miner !in slashed)
  }

  // Queueing keeps it so, and after it the evidence waits exactly when the miner can still be
  // slashed.
  lemma QueuedRight(pending: seq<Proof>, slashed: set<MinerId>, p: Proof)
    requires QueueRight(pending, slashed)
    ensures var after := Queued(pending, slashed, p);
      && QueueRight(after, slashed) && pending <= after <= pending + [p]
      && ((exists i :: 0 <= i < |after| && SameEvidence(after[i], p)) <==> p.miner !in slashed)
  {
    var after := Queued(pending, slashed, p);
    if after != pending {
      assert SameEvidence(after[|pending|], p);
    }
  }

  class SlashingPool {
    var pendingSlashes: seq<Proof>
    var processedSlashes: set<MinerId>

    constructor ()
      ensures pendingSlashes == [] && processedSlashes == {}
    {
      pendingSlashes, processedSlashes := [], {};
    }

    method AddProof(p: Proof)
      modifies this`pendingSlashes
      ensures pendingSlashes == Queued(old(pendingSlashes), processedSlashes, p)
    {
      if p.miner in processedSlashes {
        return;
      }
      var i := 0;
      while i < |pendingSlashes|
        invariant i <= |pendingSlashes|
        invariant forall k :: 0 <= k < i ==> !SameEvidence(pendingSlashes[k], p)
      {
        if SameEvidence(pendingSlashes[i], p) {
          return;
        }
        i := i + 1;
      }
      pendingSlashes := pendingSlashes + [p];
    }

    method ProcessAll(c: Crypto, stored: map<MinerId, Bond>) returns (bonds: map<MinerId, Bond>, records: seq<SlashRecord>)
      modifies this
      ensures Round(bonds, processedSlashes, records)
           == ExecutedAll(Guilty(c), Round(stored, old(processedSlashes), []), old(pendingSlashes), |old(pendingSlashes)|)
      ensures pendingSlashes == []
    {
      var proofs := pendingSlashes;
      pendingSlashes := [];
      bonds, records := stored, [];
      var guilty := Guilty(c);
      for i := 0 to |proofs|
        invariant Round(bonds, processedSlashes, records) == ExecutedAll(guilty, Round(stored, old(processedSlashes), []), proofs, i)
        invariant pendingSlashes == []
      {
        bonds, records := Process(guilty, proofs[i], bonds, records);
      }
    }

    method Process(guilty: Verdict, p: Proof, stored: map<MinerId, Bond>, before: seq<SlashRecord>)
      returns (bonds: map<MinerId, Bond>, records: seq<SlashRecord>)
      modifies this`processedSlashes
      ensures Round(bonds, processedSlashes, records) == Executed(guilty, Round(stored, old(processedSlashes), before), p)
    {
      bonds, records := stored, before;
      if p.miner !in processedSlashes && guilty(p) && p.miner in bonds {
        records := records + [SlashRecord(p.miner, bonds[p.miner].amount)];
        bonds := bonds - {p.miner};
        processedSlashes := processedSlashes + {p.miner};
      }
    }
  }

  // ---- What a round does ----

  function MinersOf(records: seq<SlashRecord>): set<MinerId> {
    set i | 0 <= i < |records| :: records[i].miner
  }

  ghost predicate Recorded(r: Round, k: nat, bonds: map<MinerId, Bond>, slashed: set<MinerId>)
    requires k < |r.records|
  {
    && r.records[k].miner in bonds && r.records[k].amount == bonds[r.records[k].miner].amount
    && r.records[k].miner !in slashed
    && forall j :: 0 <= j < k ==> r.records[j].miner != r.records[k].miner
  }

  ghost predicate Proven(guilty: Verdict, proofs: seq<Proof>, n: nat, miner: MinerId)
    requires n <= |proofs|
  {
    exists i :: 0 <= i < n && proofs[i].miner == miner && guilty(proofs[i])
  }

  ghost predicate RoundRight(guilty: Verdict, bonds: map<MinerId, Bond>, slashed: set<MinerId>, proofs: seq<Proof>, n: nat, r: Round)
    requires n <= |proofs|
  {
    && (forall k :: 0 <= k < |r.records| ==> Recorded(r, k, bonds, slashed))
    && r.slashed == slashed + MinersOf(r.records)
    && r.bonds == bonds - MinersOf(r.records)
    && (forall m :: m in MinersOf(r.records) <==> m in bonds && m !in slashed && Proven(guilty, proofs, n, m))
  }

  // Each record takes the whole bond of a miner not slashed before, at most once a miner,
  // on a proof that verifies; all other bonds stay as they are; and every bonded miner with
  // such a proof is slashed.
  lemma {:induction false} RoundIsExact(guilty: Verdict, bonds: map<MinerId, Bond>, slashed: set<MinerId>, proofs: seq<Proof>, n: nat)
    requires n <= |proofs|
    ensures RoundRight(guilty, bonds, slashed, proofs, n, ExecutedAll(guilty, Round(bonds, slashed, []), proofs, n))
    decreases n
  {
    if n == 0 {
      assert MinersOf([]) == {};
    } else {
      RoundIsExact(guilty, bonds, slashed, proofs, n - 1);
      RoundStep(guilty, bonds, slashed, proofs, n, ExecutedAll(guilty, Round(bonds, slashed, []), proofs, n - 1));
    }
  }

  lemma {:induction false} RoundStep(guilty: Verdict, bonds: map<MinerId, Bond>, slashed: set<MinerId>, proofs: seq<Proof>, n: nat, q: Round)
    requires 0 < n <= |proofs| && RoundRight(guilty, bonds, slashed, proofs, n - 1, q)
    ensures RoundRight(guilty, bonds, slashed, proofs, n, Executed(guilty, q, proofs[n - 1]))
  {
    var p, r := proofs[n - 1], Executed(guilty, q, proofs[n - 1]);
    forall m
      ensures Proven(guilty, proofs, n, m) <==> Proven(guilty, proofs, n - 1, m) || (m == p.miner && guilty(p))
    {
      ProvenStep(guilty, proofs, n, m);
    }
    forall k | 0 <= k < |q.records|
      ensures k < |r.records| && Recorded(r, k, bonds, slashed)
    {
      assert Recorded(q, k, bonds, slashed);
    }
    if |r.records| > |q.records| {
      MinersSnoc(q.records, r.records[|q.records|]);
      assert forall j :: 0 <= j < |q.records| ==> q.records[j].miner in MinersOf(q.records);
      assert Recorded(r, |q.records|, bonds, slashed);
    }
  }

  lemma ProvenStep(guilty: Verdict, proofs: seq<Proof>, n: nat, m: MinerId)
    requires 0 < n <= |proofs|
    ensures Proven(guilty, proofs, n, m) <==> Proven(guilty, proofs, n - 1, m) || (m == proofs[n - 1].miner && guilty(proofs[n - 1]))
  {}

  lemma {:induction false} MinersSnoc(records: seq<SlashRecord>, r: SlashRecord)
    ensures MinersOf(records + [r]) == MinersOf(records) + {r.miner}
  {
    assert forall i :: 0 <= i < |records| ==> (records + [r])[i] == records[i];
    assert (records + [r])[|records|] == r;
  }

  // So whatever proofs wait, an honest miner keeps its bond.
  lemma {:induction false} HonestKeepsBond(c: Crypto, miner: MinerId, signed: set<Header>, bonds: map<MinerId, Bond>,
                                           slashed: set<MinerId>, proofs: seq<Proof>)
    requires Honest(c, miner, signed) && miner in bonds
    ensures var r := ExecutedAll(Guilty(c), Round(bonds, slashed, []), proofs, |proofs|);
      miner in r.bonds && r.bonds[miner] == bonds[miner] && miner !in MinersOf(r.records)
  {
    RoundIsExact(Guilty(c), bonds, slashed, proofs, |proofs|);
    forall i | 0 <= i < |proofs| && proofs[i].miner == miner
      ensures !Guilty(c)(proofs[i])
    {
      HonestNotProven(c, miner, signed, proofs[i]);
    }
    assert !Proven(Guilty(c), proofs, |proofs|, miner);
  }

  // Over any number of rounds, with proofs and bonds arriving in between as they like, no
  // miner is slashed twice.
  ghost function Slashes(guilty: Verdict, slashed: set<MinerId>, rounds: seq<(map<MinerId, Bond>, seq<Proof>)>, n: nat): set<MinerId>
    requires n <= |rounds|
  {
    if n == 0 then slashed
    else ExecutedAll(guilty, Round(rounds[n - 1].0, Slashes(guilty, slashed, rounds, n - 1), []), rounds[n - 1].1, |rounds[n - 1].1|).slashed
  }

  ghost function RecordsOf(guilty: Verdict, rounds: seq<(map<MinerId, Bond>, seq<Proof>)>, n: nat): seq<SlashRecord>
    requires n < |rounds|
  {
    ExecutedAll(guilty, Round(rounds[n].0, Slashes(guilty, {}, rounds, n), []), rounds[n].1, |rounds[n].1|).records
  }

  lemma {:induction false} SlashedStay(guilty: Verdict, rounds: seq<(map<MinerId, Bond>, seq<Proof>)>, i: nat, n: nat)
    requires i < n <= |rounds|
    ensures MinersOf(RecordsOf(guilty, rounds, i)) <= Slashes(guilty, {}, rounds, n)
    decreases n
  {
    RoundIsExact(guilty, rounds[n - 1].0, Slashes(guilty, {}, rounds, n - 1), rounds[n - 1].1, |rounds[n - 1].1|);
    if i < n - 1 {
      SlashedStay(guilty, rounds, i, n - 1);
    }
  }

  lemma {:induction false} NobodySlashedTwice(guilty: Verdict, rounds: seq<(map<MinerId, Bond>, seq<Proof>)>, i: nat, j: nat)
    requires i < j < |rounds|
    ensures MinersOf(RecordsOf(guilty, rounds, i)) !! MinersOf(RecordsOf(guilty, rounds, j))
  {
    SlashedStay(guilty, rounds, i, j);
    RoundIsExact(guilty, rounds[j].0, Slashes(guilty, {}, rounds, j), rounds[j].1, |rounds[j].1|);
  }
}
