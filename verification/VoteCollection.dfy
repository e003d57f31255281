/** Collecting votes into quorum certificates. */
module VoteCollection {
  import opened Arithmetic
  import opened HotStuff
  import opened Quorum
  import Consensus

  datatype Signature = Signature(signer: ID, r: nat, s: nat)

  /** A set of signatures, one for each participant. */
  type MultiSignature = map<ID, Signature>

  datatype PartialCert = PartialCert(signature: MultiSignature, blockHash: Hash)

  /** A certificate as it is sent: the genesis certificate has no signature. */
  datatype Certificate = Certificate(signature: Option<MultiSignature>, view: View, hash: Hash)

  datatype Error = CombineMultiple | CombineOverlap

  datatype Result<+T> = Ok(value: T) | Err(error: Error)

  /** Signature verification over the bytes of a block, left abstract. */
  type VerifySingle = (Signature, Hash) -> bool

  /** Signatures are restored under the identifier of their signer. */
  ghost predicate WellKeyed(sig: MultiSignature) {
    forall id :: id in sig ==> sig[id].signer == id
  }

  // ---------------------------------------------------------------- signatures

  ghost predicate Disjoint(sigs: seq<MultiSignature>) {
    forall j, k, id :: 0 <= j < k < |sigs| && id in sigs[j] ==> id !in sigs[k]
  }

  /** Everything in the signatures and nothing else. */
  ghost predicate Combines(all: MultiSignature, sigs: seq<MultiSignature>) {
    && (forall id :: id in all ==> exists k :: 0 <= k < |sigs| && id in sigs[k] && all[id] == sigs[k][id])
    && (forall k, id :: 0 <= k < |sigs| && id in sigs[k] ==> id in all)
  }

  method Combine(signatures: seq<MultiSignature>) returns (res: Result<MultiSignature>)
    ensures |signatures| < 2 ==> res == Err(CombineMultiple)
    ensures |signatures| >= 2 && !Disjoint(signatures) ==> res == Err(CombineOverlap)
    ensures |signatures| >= 2 && Disjoint(signatures) ==> res.Ok? && Combines(res.value, signatures)
  {
    if |signatures| < 2 {
      return Err(CombineMultiple);
    }
    var ts: MultiSignature := map[];
    for i := 0 to |signatures|
      invariant Disjoint(signatures[..i]) && Combines(ts, signatures[..i])
    {
      var sig := signatures[i];
      var ids := sig.Keys;
      ghost var before := ts;
      while ids != {}
        invariant ids <= sig.Keys
        invariant forall id :: id in ts <==> id in before || (id in sig && id !in ids)
        invariant forall id :: id in before ==> id !in sig || id in ids
        invariant forall id :: id in ts ==> ts[id] == if id in before then before[id] else sig[id]
        decreases ids
      {
        var id :| id in ids;
        ids := ids - {id};
        if id in ts {
          var k :| 0 <= k < i && id in signatures[..i][k];
          assert id in signatures[k] && id in signatures[i];
          return Err(CombineOverlap);
        }
        ts := ts[id := sig[id]];
      }
      Combined(ts, before, signatures[..i], sig, signatures[..i + 1]);
    }
    assert signatures[..|signatures|] == signatures;
    return Ok(ts);
  }

  lemma Combined(ts: MultiSignature, before: MultiSignature, sigs: seq<MultiSignature>, sig: MultiSignature,
          more: seq<MultiSignature>)
    requires Disjoint(sigs) && Combines(before, sigs) && more == sigs + [sig]
    requires forall id :: id in ts <==> id in before || id in sig
    requires forall id :: id in before ==> id !in sig
    requires forall id :: id in ts ==> ts[id] == if id in before then before[id] else sig[id]
    ensures Disjoint(more) && Combines(ts, more)
  {
    var m := |sigs|;
    assert more[m] == sig && forall k :: 0 <= k < m ==> more[k] == sigs[k];
    forall id | id in ts ensures exists k :: 0 <= k < |more| && id in more[k] && ts[id] == more[k][id] {
      if id in before {
        var k :| 0 <= k < m && id in sigs[k] && before[id] == sigs[k][id];
        assert id in more[k];
      } else {
        assert id in more[m];
      }
    }
  }

  /** Every member verifies over the block with this hash, and there is one. */
  ghost predicate Verified(verifySingle: VerifySingle, sig: MultiSignature, h: Hash) {
    sig != map[] && forall id :: id in sig ==> verifySingle(sig[id], h)
  }

  /** The results come back in an arbitrary order. */
  method Verify(verifySingle: VerifySingle, sig: MultiSignature, h: Hash) returns (valid: bool)
    ensures valid <==> Verified(verifySingle, sig, h)
  {
    if |sig| == 0 {
      assert sig == map[];
      return false;
    }
    valid := true;
    var ids := sig.Keys;
    while ids != {}
      invariant ids <= sig.Keys
      invariant valid <==> forall id :: id in sig && id !in ids ==> verifySingle(sig[id], h)
      decreases ids
    {
      var id :| id in ids;
      ids := ids - {id};
      if !verifySingle(sig[id], h) {
        valid := false;
      }
    }
  }

  // ---------------------------------------------------------------- certificates

  function Signatures(certs: seq<PartialCert>): (sigs: seq<MultiSignature>)
    ensures |sigs| == |certs|
  {
    seq(|certs|, k requires 0 <= k < |certs| => certs[k].signature)
  }

  method CreateQuorumCert(block: Block, certs: seq<PartialCert>) returns (res: Result<Certificate>)
    ensures block.hash == GENESIS_HASH ==> res == Ok(Certificate(None, 0, GENESIS_HASH))
    ensures block.hash != GENESIS_HASH && |certs| < 2 ==> res == Err(CombineMultiple)
    ensures block.hash != GENESIS_HASH && |certs| >= 2 && !Disjoint(Signatures(certs)) ==> res == Err(CombineOverlap)
    ensures block.hash != GENESIS_HASH && |certs| >= 2 && Disjoint(Signatures(certs)) ==>
              && res.Ok? && res.value.signature.Some? && Combines(res.value.signature.value, Signatures(certs))
              && res.value.view == block.view && res.value.hash == block.hash
  {
    if block.hash == GENESIS_HASH {
      return Ok(Certificate(None, 0, GENESIS_HASH));
    }
    var sigs: seq<MultiSignature> := [];
    for i := 0 to |certs|
      invariant sigs == Signatures(certs[..i])
    {
      sigs := sigs + [certs[i].signature];
    }
    assert certs[..|certs|] == certs;
    var combined := Combine(sigs);
    if combined.Err? {
      return Err(combined.error);
    }
    return Ok(Certificate(Some(combined.value), block.view, block.hash));
  }

  method VerifyPartialCert(verifySingle: VerifySingle, chain: Chain, cert: PartialCert) returns (ok: bool)
    ensures ok <==> cert.blockHash in chain && Verified(verifySingle, cert.signature, cert.blockHash)
  {
    if cert.blockHash !in chain {
      return false;
    }
    ok := Verify(verifySingle, cert.signature, cert.blockHash);
  }

  /** What VerifyQuorumCert accepts. */
  ghost predicate Acceptable(verifySingle: VerifySingle, n: nat, chain: Chain, qc: Certificate)
    requires n >= 1
  {
    || qc.hash == GENESIS_HASH
    || (&& qc.signature.Some? && |qc.signature.value| >= QuorumSize(n)
        && qc.hash in chain && Verified(verifySingle, qc.signature.value, qc.hash))
  }

  method VerifyQuorumCert(verifySingle: VerifySingle, n: nat, chain: Chain, qc: Certificate) returns (ok: bool)
    requires n >= 1 && (qc.hash != GENESIS_HASH ==> qc.signature.Some?)
    ensures ok <==> Acceptable(verifySingle, n, chain, qc)
  {
    if qc.hash == GENESIS_HASH {
      return true;
    }
    if |qc.signature.value| < QuorumSize(n) {
      return false;
    }
    if qc.hash !in chain {
      return false;
    }
    ok := Verify(verifySingle, qc.signature.value, qc.hash);
  }

  /** Only signatures that replicas of the configuration made verify. */
  ghost predicate Unforgeable(verifySingle: VerifySingle, n: nat, made: set<Vote>) {
    forall sig, h :: verifySingle(sig, h) ==> sig.signer < n && Vote(sig.signer, h) in made
  }

  /** The certificate as the protocol sees it: who signed what. */
  function Abstract(qc: Certificate): QuorumCert {
    QuorumCert(if qc.signature.Some? then qc.signature.value.Keys else {}, qc.view, qc.hash)
  }

  /** Then what the test on signatures accepts, the protocol's replicas accept. */
  lemma AcceptedIsValid(verifySingle: VerifySingle, n: nat, made: set<Vote>, chain: Chain, qc: Certificate)
    requires n >= 1 && Unforgeable(verifySingle, n, made) && Acceptable(verifySingle, n, chain, qc)
    requires qc.signature.Some? ==> WellKeyed(qc.signature.value)
    ensures Consensus.VerifyQuorumCert(n, chain, made, Abstract(qc))
  {
    if qc.hash != GENESIS_HASH {
      var sig := qc.signature.value;
      assert |sig| == |sig.Keys|;
      assert forall id :: id in sig ==> verifySingle(sig[id], qc.hash) && sig[id].signer == id;
    }
  }

  lemma AnnouncedIsValid(verifySingle: VerifySingle, n: nat, chain: Chain, qc: Certificate)
    requires n >= 1 && Acceptable(verifySingle, n, chain, qc)
    requires qc.signature.Some? ==> WellKeyed(qc.signature.value)
    ensures forall made :: Unforgeable(verifySingle, n, made) ==>
              Consensus.VerifyQuorumCert(n, chain, made, Abstract(qc))
  {
    forall made | Unforgeable(verifySingle, n, made) ensures Consensus.VerifyQuorumCert(n, chain, made, Abstract(qc)) {
      AcceptedIsValid(verifySingle, n, made, chain, qc);
    }
  }

  // ---------------------------------------------------------------- counting signers

  /** Disjoint signatures, none of them empty, have at least one signer each. */
  lemma {:induction false} SignersAdd(ids: set<ID>, sigs: seq<MultiSignature>)
    requires Disjoint(sigs) && forall k :: 0 <= k < |sigs| ==> sigs[k] != map[]
    requires forall k, id :: 0 <= k < |sigs| && id in sigs[k] ==> id in ids
    ensures |ids| >= |sigs|
  {
    if sigs != [] {
      var m := |sigs| - 1;
      var id :| id in sigs[m];
      assert forall k :: 0 <= k < m ==> sigs[..m][k] == sigs[k];
      SignersAdd(ids - {id}, sigs[..m]);
    }
  }

  /** A certificate combined from verified, disjoint votes carries as many signers as votes, each
      verified over the block. */
  lemma CombinedVotesVerify(verifySingle: VerifySingle, all: MultiSignature, votes: seq<PartialCert>, h: Hash)
    requires Combines(all, Signatures(votes)) && Disjoint(Signatures(votes)) && votes != []
    requires forall k :: 0 <= k < |votes| ==>
              Verified(verifySingle, votes[k].signature, h) && WellKeyed(votes[k].signature)
    ensures |all| >= |votes| && Verified(verifySingle, all, h) && WellKeyed(all)
  {
    var sigs := Signatures(votes);
    SignersAdd(all.Keys, sigs);
    assert |all| == |all.Keys|;
    forall id | id in all ensures verifySingle(all[id], h) && all[id].signer == id {
      var k :| 0 <= k < |sigs| && id in sigs[k] && all[id] == sigs[k][id];
      assert sigs[k] == votes[k].signature;
    }
  }

  /** A vote by a replica whose vote is already there stops the list from ever being combined. */
  lemma RepeatedVoteBlocks(votes: seq<PartialCert>, more: seq<PartialCert>)
    requires !Disjoint(Signatures(votes))
    ensures !Disjoint(Signatures(votes + more))
  {
    var a, b := Signatures(votes), Signatures(votes + more);
    var j, k, id :| 0 <= j < k < |a| && id in a[j] && id in a[k];
    assert a[j] == b[j] && a[k] == b[k];
  }

  // ---------------------------------------------------------------- the voting machine

  class VotingMachine {
    var verifiedVotes: map<Hash, seq<PartialCert>>

    constructor ()
      ensures verifiedVotes == map[]
    {
      verifiedVotes := map[];
    }

    /** Every vote that is kept has been verified over the block it is kept for. */
    ghost predicate Valid(verifySingle: VerifySingle)
      reads this
    {
      forall h :: h in verifiedVotes ==> GoodVotes(verifySingle, verifiedVotes[h], h)
    }

    /** Keeps the votes for blocks that are stored and newer than the high certificate. */
    method CleanUp(local: Chain, highQCView: View)
      modifies this
      ensures forall h :: h in verifiedVotes <==> h in old(verifiedVotes) && h in local && local[h].view > highQCView
      ensures forall h :: h in verifiedVotes ==> verifiedVotes[h] == old(verifiedVotes)[h]
    {
      var keys := verifiedVotes.Keys;
      while keys != {}
        invariant keys <= old(verifiedVotes.Keys)
        invariant forall h :: h in verifiedVotes <==>
                    h in old(verifiedVotes) && (h in keys || (h in local && local[h].view > highQCView))
        invariant forall h :: h in verifiedVotes ==> verifiedVotes[h] == old(verifiedVotes)[h]
        decreases keys
      {
        var k :| k in keys;
        keys := keys - {k};
        if k in local {
          if local[k].view <= highQCView {
            verifiedVotes := verifiedVotes - {k};
          }
        } else {
          verifiedVotes := verifiedVotes - {k};
        }
      }
    }

    /** Handles a vote for `block`; returns the certificate it announces, if any. `chain` is what Get
        finds, `local` what is stored. A certificate is announced exactly when the vote verifies, the
        votes for the block reach a quorum and no replica is in two of them. It has a quorum of
        distinct signers, each verified over the block, and VerifyQuorumCert accepts it. */
    method VerifyCert(verifySingle: VerifySingle, n: nat, chain: Chain, local: Chain, highQCView: View,
                      cert: PartialCert, block: Block) returns (qc: Option<Certificate>)
      requires n >= 1 && Valid(verifySingle) && WellKeyed(cert.signature)
      requires block.hash == cert.blockHash
      modifies this
      ensures Valid(verifySingle)
      ensures qc.Some? ==> Acceptable(verifySingle, n, chain, qc.value) && qc.value.hash == block.hash
      ensures qc.Some? && block.hash != GENESIS_HASH ==>
                && qc.value.view == block.view && qc.value.signature.Some?
                && WellKeyed(qc.value.signature.value)
                && |qc.value.signature.value| >= QuorumSize(n)
      ensures qc.Some? ==> forall made :: Unforgeable(verifySingle, n, made) ==>
                Consensus.VerifyQuorumCert(n, chain, made, Abstract(qc.value))
      ensures var kept := if cert.blockHash in old(verifiedVotes) then old(verifiedVotes)[cert.blockHash] else [];
              var votes := kept + [cert];
              && (qc.Some? <==>
                    && cert.blockHash in chain && Verified(verifySingle, cert.signature, cert.blockHash)
                    && |votes| >= QuorumSize(n)
                    && (block.hash == GENESIS_HASH || (|votes| >= 2 && Disjoint(Signatures(votes)))))
              && (qc.Some? && block.hash != GENESIS_HASH ==>
                    qc.value.signature.Some? && Combines(qc.value.signature.value, Signatures(votes)))
              && (cert.blockHash in chain && Verified(verifySingle, cert.signature, cert.blockHash) ==>
                    cert.blockHash in verifiedVotes ==> verifiedVotes[cert.blockHash] == votes)
      ensures forall h :: h in verifiedVotes && h != cert.blockHash ==>
                h in old(verifiedVotes) && verifiedVotes[h] == old(verifiedVotes)[h]
      ensures cert.blockHash in chain && Verified(verifySingle, cert.signature, cert.blockHash) ==>
                forall h :: h != cert.blockHash ==>
                  (h in verifiedVotes <==> h in old(verifiedVotes) && h in local && local[h].view > highQCView)
      ensures cert.blockHash in chain && Verified(verifySingle, cert.signature, cert.blockHash) ==>
                (cert.blockHash in verifiedVotes <==>
                          qc.None? && cert.blockHash in local && local[cert.blockHash].view > highQCView)
      ensures !(cert.blockHash in chain && Verified(verifySingle, cert.signature, cert.blockHash)) ==>
                verifiedVotes == old(verifiedVotes)
    {
      qc := None;
      var ok := VerifyPartialCert(verifySingle, chain, cert);
      if !ok {
        return;
      }
      var votes: seq<PartialCert> := [];
      if cert.blockHash in verifiedVotes {
        votes := verifiedVotes[cert.blockHash];
      }
      votes := votes + [cert];
      assert GoodVotes(verifySingle, votes, cert.blockHash);
      verifiedVotes := verifiedVotes[cert.blockHash := votes];
      qc := Combination(verifySingle, n, chain, block, votes);
      if qc.Some? {
        verifiedVotes := verifiedVotes - {cert.blockHash};
      }
      CleanUp(local, highQCView);
    }
  }

  /** The certificate, if the votes reach a quorum and can be combined. */
  method Combination(verifySingle: VerifySingle, n: nat, chain: Chain, block: Block, votes: seq<PartialCert>)
      returns (qc: Option<Certificate>)
    requires n >= 1 && votes != [] && GoodVotes(verifySingle, votes, block.hash) && block.hash in chain
    ensures qc.Some? <==>
            |votes| >= QuorumSize(n) && (block.hash == GENESIS_HASH || (|votes| >= 2 && Disjoint(Signatures(votes))))
    ensures qc.Some? ==> Acceptable(verifySingle, n, chain, qc.value) && qc.value.hash == block.hash
    ensures qc.Some? && block.hash != GENESIS_HASH ==>
              && qc.value.view == block.view && qc.value.signature.Some?
              && WellKeyed(qc.value.signature.value) && |qc.value.signature.value| >= QuorumSize(n)
              && Combines(qc.value.signature.value, Signatures(votes))
    ensures qc.Some? ==> forall made :: Unforgeable(verifySingle, n, made) ==>
              Consensus.VerifyQuorumCert(n, chain, made, Abstract(qc.value))
  {
    if |votes| < QuorumSize(n) {
      return None;
    }
    var res := CreateQuorumCert(block, votes);
    if res.Err? {
      return None;
    }
    qc := Some(res.value);
    if block.hash != GENESIS_HASH {
      CombinedVotesVerify(verifySingle, res.value.signature.value, votes, block.hash);
    }
    AnnouncedIsValid(verifySingle, n, chain, res.value);
  }

  ghost predicate GoodVotes(verifySingle: VerifySingle, votes: seq<PartialCert>, h: Hash) {
    forall k :: 0 <= k < |votes| ==>
                  && votes[k].blockHash == h && WellKeyed(votes[k].signature)
                  && Verified(verifySingle, votes[k].signature, h)
  }

  // ---------------------------------------------------------------- collecting votes for one block

  /** How many votes make a certificate: a quorum, and at least the two that can be combined. */
  function Needed(n: nat): nat
    requires n >= 1
  {
    if QuorumSize(n) < 2 then 2 else QuorumSize(n)
  }

  lemma FullBatch(start: nat, k: nat, q: nat)
    requires q > 0 && start % q == 0 && start < k <= start + q
    ensures k % q == 0 <==> k == start + q
  {
    var d := start / q;
    assert start == d * q;
    if k < start + q {
      ModOf(d, q, k - start);
    } else {
      assert k == (d + 1) * q;
      ModOf(d + 1, q, 0);
    }
  }

  lemma OnlyOnce(k: nat, n: nat)
    requires 0 < k <= n
    ensures k % Needed(n) == 0 <==> k == Needed(n)
  {
    var q := Needed(n);
    assert n >= 2 ==> 2 * q > n;
    if k < q {
      ModOf(0, q, k);
    } else if k < 2 * q {
      ModOf(1, q, k - q);
    }
  }

  /** What a machine keeps of the votes from `start` to `k`. */
  ghost function Kept(h: Hash, certs: seq<PartialCert>, start: nat, k: nat): map<Hash, seq<PartialCert>>
    requires start <= k <= |certs|
  {
    if start == k then map[] else map[h := certs[start..k]]
  }

  /** A fresh machine gets verified votes of different replicas for one stored block that is newer than the
      high certificate. A certificate comes out exactly with each vote that makes the number needed full:
      among the votes of `n` replicas once, when a quorum is reached. It combines the votes since then. */
  method CollectVotes(verifySingle: VerifySingle, n: nat, chain: Chain, local: Chain, highQCView: View, block: Block,
                      certs: seq<PartialCert>) returns (results: seq<Option<Certificate>>)
    requires n >= 1 && block.hash != GENESIS_HASH && block.hash in chain
    requires block.hash in local && local[block.hash].view > highQCView
    requires forall k :: 0 <= k < |certs| ==>
              && certs[k].blockHash == block.hash && WellKeyed(certs[k].signature)
              && Verified(verifySingle, certs[k].signature, block.hash)
    requires Apart(certs)
    ensures |results| == |certs|
    ensures forall k :: 0 <= k < |results| ==> AsNeeded(results[k], certs, k + 1, Needed(n))
    ensures |certs| <= n ==> forall k :: 0 <= k < |results| ==> (results[k].Some? <==> k + 1 == Needed(n))
  {
    var q := Needed(n);
    var machine := new VotingMachine();
    results := [];
    ghost var start := 0;
    for k := 0 to |certs|
      invariant fresh(machine) && machine.Valid(verifySingle) && |results| == k
      invariant start % q == 0 && start <= k < start + q
      invariant machine.verifiedVotes == Kept(block.hash, certs, start, k)
      invariant forall j :: 0 <= j < k ==> AsNeeded(results[j], certs, j + 1, q)
    {
      var qc := OneVote(machine, verifySingle, n, chain, local, highQCView, block, certs, start, k);
      FullBatch(start, k + 1, q);
      if qc.Some? {
        start := k + 1;
      }
      assert AsNeeded(qc, certs, k + 1, q);
      results := results + [qc];
    }
    OnlyOneOfFew(n, certs, results);
  }

  /** A certificate of the last `q` of `k` votes comes out exactly when `k` is a multiple of `q`. */
  ghost predicate AsNeeded(result: Option<Certificate>, certs: seq<PartialCert>, k: nat, q: nat)
    requires q > 0
  {
    && (result.Some? <==> k % q == 0)
    && (result.Some? ==> CombinesLast(result.value, certs, k, q))
  }

  lemma OnlyOneOfFew(n: nat, certs: seq<PartialCert>, results: seq<Option<Certificate>>)
    requires n >= 1 && |results| == |certs|
    requires forall k :: 0 <= k < |results| ==> AsNeeded(results[k], certs, k + 1, Needed(n))
    ensures |certs| <= n ==> forall k :: 0 <= k < |results| ==> (results[k].Some? <==> k + 1 == Needed(n))
  {
    if |certs| <= n {
      forall k | 0 <= k < |results| ensures results[k].Some? <==> k + 1 == Needed(n) {
        assert AsNeeded(results[k], certs, k + 1, Needed(n));
        OnlyOnce(k + 1, n);
      }
    }
  }

  /** The machine, which keeps the votes from `start` on, gets the next one. */
  method OneVote(machine: VotingMachine, verifySingle: VerifySingle, n: nat, chain: Chain, local: Chain,
                 highQCView: View, block: Block, certs: seq<PartialCert>, ghost start: nat, k: nat)
      returns (qc: Option<Certificate>)
    requires n >= 1 && block.hash != GENESIS_HASH && block.hash in chain
    requires block.hash in local && local[block.hash].view > highQCView
    requires start <= k < |certs| && k < start + Needed(n) && Apart(certs)
    requires certs[k].blockHash == block.hash && WellKeyed(certs[k].signature)
    requires Verified(verifySingle, certs[k].signature, block.hash)
    requires machine.Valid(verifySingle) && machine.verifiedVotes == Kept(block.hash, certs, start, k)
    modifies machine
    ensures machine.Valid(verifySingle)
    ensures qc.Some? <==> k + 1 == start + Needed(n)
    ensures machine.verifiedVotes == Kept(block.hash, certs, if qc.Some? then k + 1 else start, k + 1)
    ensures qc.Some? ==> CombinesLast(qc.value, certs, k + 1, Needed(n))
  {
    ghost var before := machine.verifiedVotes;
    ghost var votes := (if block.hash in before then before[block.hash] else []) + [certs[k]];
    KeptWithNext(block.hash, certs, start, k);
    SliceIsDisjoint(certs, start, k + 1);
    qc := machine.VerifyCert(verifySingle, n, chain, local, highQCView, certs[k], block);
    assert machine.verifiedVotes == if qc.Some? then map[] else map[block.hash := votes];
  }

  /** No replica is in two of the votes. */
  ghost predicate Apart(certs: seq<PartialCert>) {
    forall j, k, id :: 0 <= j < k < |certs| && id in certs[j].signature ==> id !in certs[k].signature
  }

  /** The certificate carries the signatures of the last `q` of the first `k` votes, and no others. */
  ghost predicate CombinesLast(qc: Certificate, certs: seq<PartialCert>, k: nat, q: nat) {
    q <= k <= |certs| && qc.signature.Some? && Combines(qc.signature.value, Signatures(certs[k - q..k]))
  }

  lemma KeptWithNext(h: Hash, certs: seq<PartialCert>, start: nat, k: nat)
    requires start <= k < |certs|
    ensures var kept := Kept(h, certs, start, k);
            (if h in kept then kept[h] else []) + [certs[k]] == certs[start..k + 1]
  {
  }

  lemma SliceIsDisjoint(certs: seq<PartialCert>, from: nat, to: nat)
    requires Apart(certs) && from <= to <= |certs|
    ensures Disjoint(Signatures(certs[from..to]))
  {
    assert forall j :: 0 <= j < to - from ==> Signatures(certs[from..to])[j] == certs[from + j].signature;
  }
}
