/** The client's measurement policy: which configurations become a verifier, and which verifier. */
module ClientConfig {
  import opened Bytes
  import opened SealedTypes
  import opened Wrappers

  const MAX_ATTESTATION_AGE_MILLIS: nat := 3 * 60 * 60 * 1000
  const PCR_BYTES: nat := 48

  datatype Pcr = Pcr(index: nat, value: seq<byte>)

  type Measurements = seq<Pcr>

  datatype Config = Config(allowed: seq<Measurements>, skipMeasurements: bool, maxAgeMillis: nat)

  datatype ConfigError = InvalidAge | InvalidMeasurements

  type PcrConfig = map<nat, seq<byte>>

  datatype Verifier = Verifier(configs: seq<PcrConfig>, maxAgeMillis: nat, skipMeasurements: bool)

  // The policy

  predicate NonZero(value: seq<byte>) { exists i :: 0 <= i < |value| && value[i] != 0 }

  predicate WellFormed(m: Measurements) {
    && (forall i :: 0 <= i < |m| ==> |m[i].value| == PCR_BYTES)
    && (forall i, j :: 0 <= i < j < |m| ==> m[i].index != m[j].index)
  }

  predicate Pins(m: Measurements, index: nat) { exists i :: 0 <= i < |m| && m[i].index == index && NonZero(m[i].value) }

  predicate Acceptable(m: Measurements) { WellFormed(m) && Pins(m, 0) && Pins(m, 1) && Pins(m, 2) }

  predicate AgeInBounds(c: Config) { 0 < c.maxAgeMillis <= MAX_ATTESTATION_AGE_MILLIS }

  predicate Usable(c: Config) {
    && AgeInBounds(c)
    && (c.skipMeasurements || (c.allowed != [] && forall i :: 0 <= i < |c.allowed| ==> Acceptable(c.allowed[i])))
  }

  function Zeros(): (z: seq<byte>)
    ensures |z| == 48 && forall i :: 0 <= i < 48 ==> z[i] == 0
  {
    seq(48, _ => 0)
  }

  predicate Measures(m: Measurements, index: nat) {
    exists i :: 0 <= i < |m| && m[i].index == index && m[i].value != Zeros()
  }

  lemma PinsIff(m: Measurements, index: nat)
    requires forall i :: 0 <= i < |m| ==> |m[i].value| == 48
    ensures Pins(m, index) <==> Measures(m, index)
  {
    forall i | 0 <= i < |m| ensures NonZero(m[i].value) <==> m[i].value != Zeros() {
      if !NonZero(m[i].value) { assert m[i].value == Zeros(); }
    }
  }

  /** Acceptable, said of the values: 48 bytes each, no index twice, and PCR0, PCR1 and PCR2 are measured
      with something else than zeros. */
  lemma AcceptableIff(m: Measurements)
    ensures Acceptable(m) <==>
      && (forall i :: 0 <= i < |m| ==> |m[i].value| == 48)
      && (forall i, j :: 0 <= i < |m| && 0 <= j < |m| && m[i].index == m[j].index ==> i == j)
      && Measures(m, 0) && Measures(m, 1) && Measures(m, 2)
  {
    if forall i :: 0 <= i < |m| ==> |m[i].value| == 48 {
      PinsIff(m, 0);
      PinsIff(m, 1);
      PinsIff(m, 2);
    }
  }

  /** A configuration is usable exactly with an age of at most three hours, and either no check of the
      measurements or at least one configuration, all of them acceptable. */
  lemma UsableIff(c: Config)
    ensures Usable(c) <==>
      && 1 <= c.maxAgeMillis <= 3 * 60 * 60 * 1000
      && (c.skipMeasurements || (|c.allowed| > 0 && forall m :: m in c.allowed ==> Acceptable(m)))
  {}

  /** Exactly the measured indices, each with its value. */
  predicate Represents(p: PcrConfig, m: Measurements) {
    && (forall i :: 0 <= i < |m| ==> m[i].index in p && p[m[i].index] == m[i].value)
    && (forall k :: k in p ==> exists i :: 0 <= i < |m| && m[i].index == k)
  }

  /** The first measurement of an index. */
  function Find(m: Measurements, index: nat): Option<seq<byte>> {
    if m == [] then None else if m[0].index == index then Some(m[0].value) else Find(m[1..], index)
  }

  lemma {:induction false} FindFinds(m: Measurements, index: nat)
    ensures match Find(m, index)
            case Some(v) => exists i :: 0 <= i < |m| && m[i] == Pcr(index, v)
            case None => forall i :: 0 <= i < |m| ==> m[i].index != index
  {
    if m != [] && m[0].index != index {
      FindFinds(m[1..], index);
      assert forall i :: 0 < i < |m| ==> m[i] == m[1..][i - 1];
      if Find(m, index).Some? {
        var i :| 0 <= i < |m[1..]| && m[1..][i] == Pcr(index, Find(m, index).value);
        assert m[i + 1] == Pcr(index, Find(m, index).value);
      }
    }
  }

  /** Once a configuration is well formed and pins PCR0, the later checks of PCR0 cannot fail: it is
      found, it has 48 bytes, and it is not all zero. */
  lemma {:induction false} LaterChecksCannotFail(m: Measurements)
    requires WellFormed(m) && Pins(m, 0)
    ensures Find(m, 0).Some? && |Find(m, 0).value| == PCR_BYTES && NonZero(Find(m, 0).value)
  {
    FindFinds(m, 0);
    var i :| 0 <= i < |m| && m[i].index == 0 && NonZero(m[i].value);
    var j :| 0 <= j < |m| && m[j] == Pcr(0, Find(m, 0).value);
    assert i == j;
  }

  // Building the verifier

  /** The first loop over a configuration: lengths, and indices inserted into a set. */
  method CheckWellFormed(m: Measurements) returns (ok: bool)
    ensures ok <==> WellFormed(m)
  {
    var indices: set<nat> := {};
    for i := 0 to |m|
      invariant WellFormed(m[..i])
      invariant indices == set j | 0 <= j < i :: m[j].index
    {
      if |m[i].value| != PCR_BYTES || m[i].index in indices { return false; }
      indices := indices + {m[i].index};
    }
    assert m[..|m|] == m;
    return true;
  }

  method CheckPinned(m: Measurements, index: nat) returns (ok: bool)
    ensures ok <==> Pins(m, index)
  {
    for i := 0 to |m|
      invariant !Pins(m[..i], index)
    {
      if m[i].index == index && NonZero(m[i].value) { return true; }
    }
    assert m[..|m|] == m;
    return false;
  }

  /** One accepted configuration: PCR0 first, then every other measurement. */
  method BuildConfig(m: Measurements) returns (p: PcrConfig)
    requires Acceptable(m)
    ensures Represents(p, m)
  {
    LaterChecksCannotFail(m);
    FindFinds(m, 0);
    var image := Find(m, 0).value;
    p := map[0 := image];
    for i := 0 to |m|
      invariant 0 in p && p[0] == image
      invariant forall j :: 0 <= j < i ==> m[j].index in p && p[m[j].index] == m[j].value
      invariant forall k :: k in p ==> exists j :: 0 <= j < |m| && m[j].index == k
    {
      if m[i].index != 0 {
        p := p[m[i].index := m[i].value];
      }
    }
  }

  method BuildVerifier(c: Config) returns (r: Result<Verifier, ConfigError>)
    ensures r.Ok? <==> Usable(c)
    ensures r == Err(InvalidAge) <==> !AgeInBounds(c)
    ensures r.Ok? ==> r.value.maxAgeMillis == c.maxAgeMillis && r.value.skipMeasurements == c.skipMeasurements
    ensures r.Ok? && c.skipMeasurements ==> r.value.configs == []
    ensures r.Ok? && !c.skipMeasurements ==>
              |r.value.configs| == |c.allowed| > 0
              && forall i :: 0 <= i < |c.allowed| ==> Represents(r.value.configs[i], c.allowed[i])
  {
    if c.maxAgeMillis == 0 || c.maxAgeMillis > MAX_ATTESTATION_AGE_MILLIS { return Err(InvalidAge); }
    if c.skipMeasurements { return Ok(Verifier([], c.maxAgeMillis, true)); }
    if c.allowed == [] { return Err(InvalidMeasurements); }
    var configs: seq<PcrConfig> := [];
    for i := 0 to |c.allowed|
      invariant |configs| == i
      invariant forall j :: 0 <= j < i ==> Acceptable(c.allowed[j]) && Represents(configs[j], c.allowed[j])
    {
      var wellFormed := CheckWellFormed(c.allowed[i]);
      if !wellFormed { return Err(InvalidMeasurements); }
      for index := 0 to 3
        invariant forall k :: 0 <= k < index ==> Pins(c.allowed[i], k)
      {
        var pinned := CheckPinned(c.allowed[i], index);
        if !pinned { return Err(InvalidMeasurements); }
      }
      assert Pins(c.allowed[i], 0) && Pins(c.allowed[i], 1) && Pins(c.allowed[i], 2);
      var config := BuildConfig(c.allowed[i]);
      configs := configs + [config];
    }
    return Ok(Verifier(configs, c.maxAgeMillis, false));
  }

  /** A configuration pins exactly one measurement map: two that represent it are equal, and all of
      its values have 48 bytes with nonzero PCR0, PCR1 and PCR2. */
  lemma RepresentationIsUnique(p: PcrConfig, q: PcrConfig, m: Measurements)
    requires Acceptable(m) && Represents(p, m) && Represents(q, m)
    ensures p == q
    ensures forall k :: k in p ==> |p[k]| == PCR_BYTES
    ensures forall k :: 0 <= k < 3 ==> k in p && NonZero(p[k])
  {}
}
