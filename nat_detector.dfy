/** app/composables/useNatTypeDetector.ts: classify the browser's NAT from the
    ICE candidates one gathering run produces. Host candidates carry the local
    addresses and server-reflexive ("srflx") candidates the addresses and
    ports a STUN server saw (candidate types of section 5.1.1 of RFC 8445); the
    cone/symmetric names follow section 5 of RFC 3489. */
module NatDetector {
  import opened Common

  datatype NatType = Unknown | Detecting | ConeNat | SymmetricNat | Blocked | PublicIp

  /** `RTCIceCandidate.type`; `NoType` is a candidate whose type is null. */
  datatype CandidateType = Host | Srflx | Prflx | Relay | NoType

  /** The fields of an `RTCIceCandidate` the analysis reads; the address and
      port may be null in the browser. */
  datatype Candidate = Candidate(kind: CandidateType, address: Option<string>, port: Option<int>)

  /** Some host candidate has the address of some reflexive candidate
      (null addresses compare equal, as with `===`). */
  predicate SharesAddress(srflx: seq<Candidate>, host: seq<Candidate>)
  {
    exists i, j | 0 <= i < |host| && 0 <= j < |srflx| :: host[i].address == srflx[j].address
  }

  /** The distinct ports of the reflexive candidates, null included. */
  function PublicPorts(srflx: seq<Candidate>): set<Option<int>>
  {
    set c | c in srflx :: c.port
  }

  function Addresses(cs: seq<Candidate>): set<Option<string>>
  {
    set c | c in cs :: c.address
  }

  /** `analyseCandidates`: no reflexive candidate means the STUN server was
      unreachable; a reflexive address equal to a local one means no
      translation; otherwise one mapped port for every binding is a cone NAT
      and several are a symmetric NAT. */
  function AnalyseCandidates(srflx: seq<Candidate>, host: seq<Candidate>): (r: NatType)
    ensures r == Blocked <==> |srflx| == 0
    ensures r == PublicIp <==> |srflx| > 0 && SharesAddress(srflx, host)
    ensures r == SymmetricNat <==> |srflx| > 0 && !SharesAddress(srflx, host) && |PublicPorts(srflx)| > 1
    ensures r == ConeNat <==> |srflx| > 0 && !SharesAddress(srflx, host) && |PublicPorts(srflx)| == 1
    ensures r != Unknown && r != Detecting
  {
    if |srflx| == 0 then Blocked
    else if SharesAddress(srflx, host) then PublicIp
    else if |PublicPorts(srflx)| > 1 then SymmetricNat
    else
      assert srflx[0].port in PublicPorts(srflx);
      ConeNat
  }

  /** The public-address test is a test on the two address sets. */
  lemma SharesAddressIffCommon(srflx: seq<Candidate>, host: seq<Candidate>)
    ensures SharesAddress(srflx, host) <==> Addresses(host) * Addresses(srflx) != {}
  {
    if Addresses(host) * Addresses(srflx) != {} {
      var a :| a in Addresses(host) * Addresses(srflx);
      var hc :| hc in host && hc.address == a;
      var sc :| sc in srflx && sc.address == a;
      var i :| 0 <= i < |host| && host[i] == hc;
      var j :| 0 <= j < |srflx| && srflx[j] == sc;
      assert host[i].address == srflx[j].address;
    }
    if SharesAddress(srflx, host) {
      var i, j :| 0 <= i < |host| && 0 <= j < |srflx| && host[i].address == srflx[j].address;
      assert host[i].address in Addresses(host) * Addresses(srflx);
    }
  }

  /** The verdict reads the candidates only through the reflexive
      addresses, the host addresses and the reflexive ports: runs that agree
      on those three sets get the same verdict, however the candidates
      themselves differ. */
  lemma AnalysisReadsOnlyProjections(srflx1: seq<Candidate>, host1: seq<Candidate>, srflx2: seq<Candidate>, host2: seq<Candidate>)
    requires Addresses(srflx1) == Addresses(srflx2) && Addresses(host1) == Addresses(host2)
    requires PublicPorts(srflx1) == PublicPorts(srflx2)
    ensures AnalyseCandidates(srflx1, host1) == AnalyseCandidates(srflx2, host2)
  {
    SharesAddressIffCommon(srflx1, host1);
    SharesAddressIffCommon(srflx2, host2);
    if |srflx1| > 0 {
      assert srflx1[0].address in Addresses(srflx2);
    }
    if |srflx2| > 0 {
      assert srflx2[0].address in Addresses(srflx1);
    }
  }

  /** The verdict depends only on which candidates were gathered, not on the
      order or the number of times they arrived. */
  lemma AnalysisIgnoresOrder(srflx1: seq<Candidate>, host1: seq<Candidate>, srflx2: seq<Candidate>, host2: seq<Candidate>)
    requires forall c :: c in srflx1 <==> c in srflx2
    requires forall c :: c in host1 <==> c in host2
    ensures AnalyseCandidates(srflx1, host1) == AnalyseCandidates(srflx2, host2)
  {
    assert Addresses(srflx1) == Addresses(srflx2);
    assert Addresses(host1) == Addresses(host2);
    assert PublicPorts(srflx1) == PublicPorts(srflx2);
    AnalysisReadsOnlyProjections(srflx1, host1, srflx2, host2);
  }

  /** The detector's state: the verdict shown, the candidate lists of the
      current gathering run, and whether a peer connection is gathering
      (`pc !== null`). */
  class Detector {
    var natType: NatType
    var srflxCandidates: seq<Candidate>
    var hostCandidates: seq<Candidate>
    var gathering: bool

    /** The lists hold candidates of their own type only. */
    ghost predicate Valid()
      reads this
    {
      && (forall c | c in srflxCandidates :: c.kind == Srflx)
      && (forall c | c in hostCandidates :: c.kind == Host)
    }

    constructor ()
      ensures natType == Unknown && srflxCandidates == [] && hostCandidates == [] && !gathering
      ensures Valid()
    {
      natType, srflxCandidates, hostCandidates, gathering := Unknown, [], [], false;
    }

    /** `detect`. `created` says whether `new RTCPeerConnection` succeeded. A
        detection already in progress makes the call do nothing. */
    method Detect(created: bool)
      requires Valid()
      modifies this
      ensures old(natType) == Detecting ==>
        && natType == old(natType) && gathering == old(gathering)
        && srflxCandidates == old(srflxCandidates) && hostCandidates == old(hostCandidates)
      ensures old(natType) != Detecting && !created ==>
        && natType == Blocked && gathering == old(gathering)
        && srflxCandidates == old(srflxCandidates) && hostCandidates == old(hostCandidates)
      ensures old(natType) != Detecting && created ==>
        natType == Detecting && gathering && srflxCandidates == [] && hostCandidates == []
      ensures Valid()
    {
      if natType == Detecting {
        return;
      }
      natType := Detecting;
      if !created {
        natType := Blocked;
        return;
      }
      gathering := true;
      srflxCandidates, hostCandidates := [], [];
    }

    /** `onicecandidate`: a reflexive candidate joins the reflexive list, a
        host candidate the host list; other types and the end-of-candidates
        event (`None`) are only logged. */
    method OnIceCandidate(candidate: Option<Candidate>)
      requires Valid()
      modifies this
      ensures srflxCandidates == old(srflxCandidates)
        + if candidate.Some? && candidate.value.kind == Srflx then [candidate.value] else []
      ensures hostCandidates == old(hostCandidates)
        + if candidate.Some? && candidate.value.kind == Host then [candidate.value] else []
      ensures natType == old(natType) && gathering == old(gathering)
      ensures Valid()
    {
      if candidate.Some? {
        var c := candidate.value;
        if c.kind == Srflx {
          srflxCandidates := srflxCandidates + [c];
        } else if c.kind == Host {
          hostCandidates := hostCandidates + [c];
        }
      }
    }

    /** `onicegatheringstatechange`; `complete` is `iceGatheringState ===
        'complete'`. Completion classifies what was gathered and closes the
        peer connection. */
    method OnIceGatheringStateChange(complete: bool)
      requires Valid()
      modifies this
      ensures old(gathering) && complete ==>
        natType == AnalyseCandidates(old(srflxCandidates), old(hostCandidates)) && !gathering
      ensures !(old(gathering) && complete) ==> natType == old(natType) && gathering == old(gathering)
      ensures srflxCandidates == old(srflxCandidates) && hostCandidates == old(hostCandidates)
      ensures Valid()
    {
      if gathering && complete {
        natType := AnalyseCandidates(srflxCandidates, hostCandidates);
        gathering := false;
      }
    }

    /** `onicecandidateerror`, and the rejection handler of `createOffer`:
        the verdict becomes `Blocked`, whatever was gathered. */
    method OnIceCandidateError()
      requires Valid()
      modifies this
      ensures natType == Blocked
      ensures srflxCandidates == old(srflxCandidates) && hostCandidates == old(hostCandidates)
      ensures gathering == old(gathering)
      ensures Valid()
    {
      natType := Blocked;
    }
  }
}
