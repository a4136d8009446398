/** The credentials of a remote member: stored by id, superseded by newer ones, shut out by revocations. */
module Membership {
  import opened Common

  datatype Kind = Com | Cap | Tag | Coo | Other
  datatype Key = Key(kind: Kind, id: uint32)

  /** A credential's timestamp and all that is signed. */
  datatype Credential = Credential(timestamp: uint64, content: seq<nat>)

  datatype Revocation = Revocation(key: Key, threshold: uint64)

  /** What verifying a signature gives; the signer may be unknown so far. */
  datatype Verdict = Good | Waiting | Bad

  datatype Result = Rejected | AcceptedNew | AcceptedRedundant | Deferred

  datatype State = State(com: Credential, comThreshold: uint64, revocations: map<Key, uint64>, creds: map<Key, Credential>)

  const EMPTY := State(Credential(0, []), 0, map[], map[])

  /** The credentials kept in tables: capabilities, tags and certificates of ownership. */
  type TableKey = k: Key | k.kind in {Cap, Tag, Coo} witness Key(Tag, 0)

  // ----- one addition

  datatype Step =
    | AddCom(c: Credential, verdict: Verdict)
    | AddCredential(k: TableKey, c: Credential, verdict: Verdict)
    | AddRevocation(v: Revocation, verdict: Verdict)

  function Threshold(revocations: map<Key, uint64>, k: Key): uint64 {
    if k in revocations then revocations[k] else 0
  }

  /** What becomes of a credential that is not too old, not revoked and not there yet. */
  function Decided(verdict: Verdict): Result {
    match verdict
    case Good => AcceptedNew
    case Waiting => Deferred
    case Bad => Rejected
  }

  function Outcome(s: State, step: Step): Result {
    match step
    case AddCom(c, verdict) =>
      if c.timestamp <= s.comThreshold || c.timestamp < s.com.timestamp then Rejected
      else if s.com == c then AcceptedRedundant
      else Decided(verdict)
    case AddCredential(k, c, verdict) =>
      if k in s.creds && s.creds[k].timestamp > c.timestamp then Rejected
      else if k in s.creds && s.creds[k] == c then AcceptedRedundant
      else if k in s.revocations && s.revocations[k] >= c.timestamp then Rejected
      else Decided(verdict)
    case AddRevocation(v, verdict) =>
      if verdict != Good || v.key.kind == Other then (if verdict == Waiting then Deferred else Rejected)
      else if v.threshold > (if v.key.kind == Com then s.comThreshold else Threshold(s.revocations, v.key)) then AcceptedNew
      else AcceptedRedundant
  }

  /** The state after an addition; a revocation looked up in the table leaves an entry there even if it changes nothing. */
  function Apply(s: State, step: Step): State {
    var r := Outcome(s, step);
    match step
    case AddCom(c, _) => if r == AcceptedNew then s.(com := c) else s
    case AddCredential(k, c, _) => if r == AcceptedNew then s.(creds := s.creds[k := c]) else s
    case AddRevocation(v, verdict) =>
      if r == AcceptedNew && v.key.kind == Com then s.(comThreshold := v.threshold)
      else if r == AcceptedNew then s.(revocations := s.revocations[v.key := v.threshold], comThreshold := v.threshold)
      else if r == AcceptedRedundant && v.key.kind != Com then
        s.(revocations := s.revocations[v.key := Threshold(s.revocations, v.key)])
      else s
  }

  class Membership {
    var com: Credential
    var comThreshold: uint64
    var revocations: map<Key, uint64>
    var creds: map<Key, Credential>

    function Now(): State
      reads this
    {
      State(com, comThreshold, revocations, creds)
    }

    constructor ()
      ensures Now() == EMPTY
      ensures com == Credential(0, []) && comThreshold == 0 && revocations == map[] && creds == map[]
    {
      com, comThreshold, revocations, creds := Credential(0, []), 0, map[], map[];
    }

    /** Adds a certificate of membership. */
    method AddCom(c: Credential, verdict: Verdict) returns (r: Result)
      modifies this
      ensures r == Outcome(old(Now()), Step.AddCom(c, verdict)) && Now() == Apply(old(Now()), Step.AddCom(c, verdict))
      ensures r == Rejected <==>
                c.timestamp <= comThreshold || c.timestamp < old(com).timestamp || (old(com) != c && verdict == Bad)
      ensures r == AcceptedNew <==>
                c.timestamp > comThreshold && old(com).timestamp <= c.timestamp && old(com) != c && verdict == Good
      ensures r == AcceptedRedundant <==> c.timestamp > comThreshold && old(com) == c
      ensures com == (if r == AcceptedNew then c else old(com)) && comThreshold == old(comThreshold)
      ensures revocations == old(revocations) && creds == old(creds)
    {
      if c.timestamp <= comThreshold || c.timestamp < com.timestamp {
        return Rejected;
      }
      if c.timestamp == com.timestamp && com == c {
        return AcceptedRedundant;
      }
      match verdict {
        case Bad => r := Rejected;
        case Good => com := c; r := AcceptedNew;
        case Waiting => r := Deferred;
      }
    }

    /** Adds a tag, capability or certificate of ownership. */
    method AddCredential(k: TableKey, c: Credential, verdict: Verdict) returns (r: Result)
      modifies this
      ensures var step := Step.AddCredential(k, c, verdict);
              r == Outcome(old(Now()), step) && Now() == Apply(old(Now()), step)
      ensures r == AcceptedNew <==>
                && (k in old(creds) ==> old(creds)[k] != c && old(creds)[k].timestamp <= c.timestamp)
                && (k in revocations ==> revocations[k] < c.timestamp) && verdict == Good
      ensures r == AcceptedRedundant <==> k in old(creds) && old(creds)[k] == c
      ensures r == Rejected <==>
                || (k in old(creds) && old(creds)[k].timestamp > c.timestamp)
                || (&& (k in old(creds) ==> old(creds)[k] != c)
                    && ((k in revocations && revocations[k] >= c.timestamp) || verdict == Bad))
      ensures creds == if r == AcceptedNew then old(creds)[k := c] else old(creds)
      ensures com == old(com) && comThreshold == old(comThreshold) && revocations == old(revocations)
    {
      if k in creds {
        if creds[k].timestamp > c.timestamp {
          return Rejected;
        }
        if creds[k] == c {
          return AcceptedRedundant;
        }
      }
      if k in revocations && revocations[k] >= c.timestamp {
        return Rejected;
      }
      match verdict {
        case Bad => r := Rejected;
        case Good => creds := creds[k := c]; r := AcceptedNew;
        case Waiting => r := Deferred;
      }
    }

    /** Adds a revocation; one of another credential also sets the threshold for certificates. */
    method AddRevocation(v: Revocation, verdict: Verdict) returns (r: Result)
      modifies this
      ensures var step := Step.AddRevocation(v, verdict);
              r == Outcome(old(Now()), step) && Now() == Apply(old(Now()), step)
      ensures r == Deferred <==> verdict == Waiting
      ensures r == Rejected <==> verdict == Bad || (verdict == Good && v.key.kind == Other)
      ensures r == AcceptedNew <==>
                && verdict == Good && v.key.kind != Other
                && v.threshold > if v.key.kind == Com then old(comThreshold)
                                 else if v.key in old(revocations) then old(revocations)[v.key] else 0
      ensures comThreshold == if r == AcceptedNew then v.threshold else old(comThreshold)
      ensures if verdict == Good && v.key.kind in {Cap, Tag, Coo}
              then
                && v.key in revocations
                && revocations == old(revocations)[v.key := revocations[v.key]]
                && (r == AcceptedNew ==> revocations[v.key] == v.threshold)
                && (r == AcceptedRedundant ==>
                      revocations[v.key] == if v.key in old(revocations) then old(revocations)[v.key] else 0)
              else revocations == old(revocations)
      ensures com == old(com) && creds == old(creds)
      ensures comThreshold < old(comThreshold) <==>
                && verdict == Good && v.key.kind in {Cap, Tag, Coo}
                && Threshold(old(revocations), v.key) < v.threshold < old(comThreshold)
    {
      if verdict == Bad || (verdict == Good && v.key.kind == Other) {
        return Rejected;
      }
      if verdict == Waiting {
        return Deferred;
      }
      if v.key.kind == Com {
        if v.threshold > comThreshold {
          comThreshold := v.threshold;
          return AcceptedNew;
        }
        return AcceptedRedundant;
      }
      revocations := revocations[v.key := Threshold(revocations, v.key)];
      if revocations[v.key] < v.threshold {
        revocations := revocations[v.key := v.threshold];
        comThreshold := v.threshold;
        return AcceptedNew;
      }
      r := AcceptedRedundant;
    }

    /** A stored credential counts if its timestamp is near the configuration's and above its threshold. */
    method IsValid(k: TableKey, now: uint64, delta: uint64) returns (valid: bool)
      requires k in creds
      ensures valid <==> Usable(Now(), k, now, delta)
      ensures valid <==>
                && now - delta <= creds[k].timestamp <= now + delta
                && (k in revocations ==> creds[k].timestamp > revocations[k])
    {
      valid := false;
      var ts := creds[k].timestamp;
      if (if ts >= now then ts - now else now - ts) <= delta {
        valid := k !in revocations || ts > revocations[k];
      }
    }
  }

  predicate Usable(s: State, k: TableKey, now: int, delta: int) {
    && k in s.creds && now - delta <= s.creds[k].timestamp <= now + delta
    && (k in s.revocations ==> s.creds[k].timestamp > s.revocations[k])
  }

  // ----- any run of additions

  function After(steps: seq<Step>): State {
    if steps == [] then EMPTY else Apply(After(steps[..|steps| - 1]), steps[|steps| - 1])
  }

  lemma AfterNext(steps: seq<Step>, j: nat)
    requires j < |steps|
    ensures After(steps[..j + 1]) == Apply(After(steps[..j]), steps[j])
  {
    assert steps[..j + 1][..j] == steps[..j];
  }

  /** Nothing stored goes back in time: not the certificate, nor a credential, nor a threshold of one. */
  predicate Later(a: State, b: State) {
    && a.com.timestamp <= b.com.timestamp
    && (forall k :: k in a.creds ==> k in b.creds && a.creds[k].timestamp <= b.creds[k].timestamp)
    && (forall k :: k in a.revocations ==> k in b.revocations && a.revocations[k] <= b.revocations[k])
  }

  lemma ApplyLater(s: State, step: Step)
    ensures Later(s, Apply(s, step))
  {
  }

  lemma LaterTransitive(a: State, b: State, c: State)
    requires Later(a, b) && Later(b, c)
    ensures Later(a, c)
  {
    forall k | k in a.creds ensures k in c.creds && a.creds[k].timestamp <= c.creds[k].timestamp {
      assert k in b.creds;
    }
    forall k | k in a.revocations ensures k in c.revocations && a.revocations[k] <= c.revocations[k] {
      assert k in b.revocations;
    }
  }

  lemma Same(a: State)
    ensures Later(a, a)
  {
  }

  /** Over every run of additions, whatever is stored only gets newer. */
  lemma {:induction false} RunLater(steps: seq<Step>, i: nat, j: nat)
    requires i <= j <= |steps|
    ensures Later(After(steps[..i]), After(steps[..j]))
    decreases j - i
  {
    hide Later, Apply, After;
    if i == j {
      Same(After(steps[..i]));
    } else {
      RunLater(steps, i, j - 1);
      AfterNext(steps, j - 1);
      ApplyLater(After(steps[..j - 1]), steps[j - 1]);
      LaterTransitive(After(steps[..i]), After(steps[..j - 1]), After(steps[..j]));
    }
  }

  /** Step i of the run revokes the credentials under k up to the threshold, with a good signature. */
  predicate Revokes(steps: seq<Step>, i: nat, k: Key, threshold: uint64) {
    i < |steps| && steps[i] == Step.AddRevocation(Revocation(k, threshold), Good)
  }

  /** A revocation is remembered for the rest of the run. */
  lemma RevocationLasts(steps: seq<Step>, i: nat, j: nat, k: TableKey, threshold: uint64)
    requires i < j <= |steps| && Revokes(steps, i, k, threshold)
    ensures var s := After(steps[..j]); k in s.revocations && threshold <= s.revocations[k]
  {
    AfterNext(steps, i);
    assert k in After(steps[..i + 1]).revocations && threshold <= After(steps[..i + 1]).revocations[k];
    hide Apply, After;
    RunLater(steps, i + 1, j);
  }

  /** A credential newly accepted is above the threshold of every revocation of it before. */
  lemma RevokedStaysOut(steps: seq<Step>, i: nat, j: nat, k: TableKey, threshold: uint64, c: Credential, verdict: Verdict)
    requires i < j < |steps| && Revokes(steps, i, k, threshold) && steps[j] == Step.AddCredential(k, c, verdict)
    requires Outcome(After(steps[..j]), steps[j]) == AcceptedNew
    ensures c.timestamp > threshold
  {
    hide After;
    RevocationLasts(steps, i, j, k, threshold);
  }

  /** And a stored credential at or below the threshold of any revocation so far is never used, whenever it was stored. */
  lemma RevokedIsUnused(steps: seq<Step>, i: nat, j: nat, k: TableKey, threshold: uint64, now: uint64, delta: uint64)
    requires i < j <= |steps| && Revokes(steps, i, k, threshold) && Usable(After(steps[..j]), k, now, delta)
    ensures After(steps[..j]).creds[k].timestamp > threshold
  {
    hide After;
    RevocationLasts(steps, i, j, k, threshold);
  }

  /** Step l can lower the threshold for certificates: it revokes some other credential up to less than that. */
  predicate Lowers(step: Step, threshold: uint64) {
    && step.AddRevocation? && step.verdict == Good && step.v.key.kind in {Cap, Tag, Coo} && step.v.threshold < threshold
  }

  /** A revoked certificate is accepted again only after a revocation of another credential with a lower threshold. */
  lemma {:induction false} ComRevocationLasts(steps: seq<Step>, i: nat, j: nat, id: uint32, threshold: uint64)
    requires i < j <= |steps| && Revokes(steps, i, Key(Com, id), threshold)
    requires forall l :: i < l < j ==> !Lowers(steps[l], threshold)
    ensures After(steps[..j]).comThreshold >= threshold
    ensures forall c: Credential, verdict: Verdict :: c.timestamp <= threshold ==>
              Outcome(After(steps[..j]), Step.AddCom(c, verdict)) == Rejected
    decreases j
  {
    hide After;
    AfterNext(steps, j - 1);
    if j == i + 1 {
    } else {
      ComRevocationLasts(steps, i, j - 1, id, threshold);
      assert !Lowers(steps[j - 1], threshold);
    }
  }

  /** A revoked tag can bring the threshold for certificates down, and let a revoked certificate back in. */
  method ThresholdFalls() returns (low: uint64, r: Result)
    ensures low == 50 && r == AcceptedNew
  {
    var m := new Membership();
    var _ := m.AddRevocation(Revocation(Key(Com, 0), 100), Good);
    r := m.AddCom(Credential(70, [7]), Good);
    assert r != AcceptedNew;
    var _ := m.AddRevocation(Revocation(Key(Tag, 1), 50), Good);
    low := m.comThreshold;
    r := m.AddCom(Credential(70, [7]), Good);
  }
}
