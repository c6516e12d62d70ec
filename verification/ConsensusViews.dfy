/** The latest-response views: each is the unique maximum-attempt response per role or
    validator, and none depends on the iteration order of its dictionary. */
module ConsensusViews {
  import opened Prelude
  import opened ConsensusModel

  /** The response dictionaries store every response under its own key, exactly once. */
  ghost predicate StoredKeys(v: Vote) {
    StoredSecretaries(v.secretaryResponses) && StoredValidators(v.responses)
  }

  ghost predicate StoredSecretaries(t: Table<SecretaryResponse>) {
    && (forall k :: k in t.vals ==> k == SecretaryKey(t.vals[k]) && t.vals[k] in t.order)
    && (forall i :: 0 <= i < |t.order| ==>
          SecretaryKey(t.order[i]) in t.vals && t.vals[SecretaryKey(t.order[i])] == t.order[i])
    && |t.order| == |t.vals|
  }

  ghost predicate StoredValidators(t: Table<ValidatorResponse>) {
    && (forall k :: k in t.vals ==> k == ValidatorKey(t.vals[k]) && t.vals[k] in t.order)
    && (forall i :: 0 <= i < |t.order| ==>
          ValidatorKey(t.order[i]) in t.vals && t.vals[ValidatorKey(t.order[i])] == t.order[i])
    && |t.order| == |t.vals|
  }

  lemma AddStoresSecretary(t: Table<SecretaryResponse>, r: SecretaryResponse)
    requires StoredSecretaries(t) && SecretaryKey(r) !in t.vals
    ensures StoredSecretaries(t.Add(SecretaryKey(r), r))
  {
    var t' := t.Add(SecretaryKey(r), r);
    assert t'.order[|t.order|] == r;
    forall k | k in t'.vals ensures t'.vals[k] in t'.order {
      if k in t.vals {
        var i :| 0 <= i < |t.order| && t.order[i] == t.vals[k];
        assert t'.order[i] == t'.vals[k];
      }
    }
  }

  lemma AddStoresValidator(t: Table<ValidatorResponse>, r: ValidatorResponse)
    requires StoredValidators(t) && ValidatorKey(r) !in t.vals
    ensures StoredValidators(t.Add(ValidatorKey(r), r))
  {
    var t' := t.Add(ValidatorKey(r), r);
    assert t'.order[|t.order|] == r;
    forall k | k in t'.vals ensures t'.vals[k] in t'.order {
      if k in t.vals {
        var i :| 0 <= i < |t.order| && t.order[i] == t.vals[k];
        assert t'.order[i] == t'.vals[k];
      }
    }
  }

  /** A response is dropped as a duplicate exactly when one of the same validator and
      attempt is stored, whatever characters validator ids contain. */
  lemma DuplicateExactly(t: Table<ValidatorResponse>, r: ValidatorResponse)
    requires StoredValidators(t)
    ensures ValidatorKey(r) in t.vals <==>
            exists i :: 0 <= i < |t.order| && t.order[i].validatorId == r.validatorId
                        && t.order[i].attempt == r.attempt
  {
    if ValidatorKey(r) in t.vals {
      var x := t.vals[ValidatorKey(r)];
      AttemptKeyInjective(x.validatorId, x.attempt, r.validatorId, r.attempt);
      var i :| 0 <= i < |t.order| && t.order[i] == x;
    }
  }

  /** The same for secretaries: a role answers each attempt once. */
  lemma DuplicateSecretaryExactly(t: Table<SecretaryResponse>, r: SecretaryResponse)
    requires StoredSecretaries(t)
    ensures SecretaryKey(r) in t.vals <==>
            exists i :: 0 <= i < |t.order| && t.order[i].role == r.role && t.order[i].attempt == r.attempt
  {
    if SecretaryKey(r) in t.vals {
      var x := t.vals[SecretaryKey(r)];
      AttemptKeyInjective(x.role.Name(), x.attempt, r.role.Name(), r.attempt);
      assert SecretaryText.Name()[10] == 't' && SecretaryJson.Name()[10] == 'j';
      var i :| 0 <= i < |t.order| && t.order[i] == x;
    }
  }

  // ---------- secretaries ----------

  predicate Considered(r: SecretaryResponse, role: Role, only: Option<int>) {
    r.role == role && (only.Some? ==> r.attempt == only.value)
  }

  /** `r` is a response of the role with the greatest attempt among those considered. */
  ghost predicate LatestOf(rs: seq<SecretaryResponse>, role: Role, only: Option<int>, r: SecretaryResponse) {
    r in rs && Considered(r, role, only)
    && forall i :: 0 <= i < |rs| && Considered(rs[i], role, only) ==> rs[i].attempt <= r.attempt
  }

  /** The loop finds a latest response of every role that has one, and of no other. */
  lemma {:induction false} LatestByRoleExact(rs: seq<SecretaryResponse>, role: Role, only: Option<int>)
    ensures role in LatestByRole(rs, only) ==> LatestOf(rs, role, only, LatestByRole(rs, only)[role])
    ensures role !in LatestByRole(rs, only) ==> forall i :: 0 <= i < |rs| ==> !Considered(rs[i], role, only)
  {
    if rs != [] {
      LatestByRoleExact(rs[..|rs| - 1], role, only);
    }
  }

  /** For every enumeration `rs` of the stored responses, the loop returns the same view. */
  lemma SecretaryViewOrderIndependent(t: Table<SecretaryResponse>, rs: seq<SecretaryResponse>, only: Option<int>)
    requires StoredSecretaries(t)
    requires forall r :: r in rs <==> r in t.order
    ensures LatestByRole(rs, only) == LatestByRole(t.order, only)
  {
    var m, m' := LatestByRole(rs, only), LatestByRole(t.order, only);
    forall role: Role
      ensures role in m <==> role in m'
      ensures role in m && role in m' ==> m[role] == m'[role]
    {
      LatestByRoleExact(rs, role, only);
      LatestByRoleExact(t.order, role, only);
      if role in m {
        assert m[role] in t.order;
      }
      if role in m' {
        assert m'[role] in rs;
      }
      if role in m && role in m' {
        SameSecretaryKey(t, m[role], m'[role]);
      }
    }
  }

  lemma SameSecretaryKey(t: Table<SecretaryResponse>, a: SecretaryResponse, b: SecretaryResponse)
    requires StoredSecretaries(t) && a in t.order && b in t.order
    requires a.role == b.role && a.attempt == b.attempt
    ensures a == b
  {
    assert SecretaryKey(a) == SecretaryKey(b);
  }

  // ---------- legacy validators ----------

  ghost predicate LatestOfValidator(rs: seq<ValidatorResponse>, r: ValidatorResponse) {
    r in rs && forall i :: 0 <= i < |rs| && rs[i].validatorId == r.validatorId ==> rs[i].attempt <= r.attempt
  }

  ghost predicate OnePerValidator(rs: seq<ValidatorResponse>) {
    forall i, j :: 0 <= i < j < |rs| ==> rs[i].validatorId != rs[j].validatorId
  }

  lemma {:induction false} FindFirst(rs: seq<ValidatorResponse>, id: string)
    ensures forall i :: 0 <= i < Find(rs, id) ==> rs[i].validatorId != id
  {
    if rs != [] && rs[0].validatorId != id {
      FindFirst(rs[1..], id);
    }
  }

  /** One latest response of every validator heard in `rs`. */
  ghost predicate LatestView(rs: seq<ValidatorResponse>, latest: seq<ValidatorResponse>) {
    && OnePerValidator(latest)
    && (forall r :: r in latest ==> LatestOfValidator(rs, r))
    && (forall i :: 0 <= i < |rs| ==> Find(latest, rs[i].validatorId) < |latest|)
  }

  lemma UpsertOnePerValidator(latest: seq<ValidatorResponse>, r: ValidatorResponse)
    requires OnePerValidator(latest)
    ensures OnePerValidator(Upsert(latest, r))
  {
    FindFirst(latest, r.validatorId);
  }

  /** Every validator found before, and the new one, is found afterwards. */
  lemma UpsertFinds(latest: seq<ValidatorResponse>, r: ValidatorResponse, id: string)
    requires Find(latest, id) < |latest| || id == r.validatorId
    ensures Find(Upsert(latest, r), id) < |Upsert(latest, r)|
  {
    var next, j := Upsert(latest, r), Find(latest, id);
    assert next[j].validatorId == id;
    FindFirst(next, id);
  }

  lemma UpsertLatest(rs: seq<ValidatorResponse>, latest: seq<ValidatorResponse>, r: ValidatorResponse)
    requires LatestView(rs, latest)
    ensures forall x :: x in Upsert(latest, r) ==> LatestOfValidator(rs + [r], x)
  {
    var next, at := Upsert(latest, r), Find(latest, r.validatorId);
    FindFirst(latest, r.validatorId);
    assert (rs + [r])[|rs|] == r;
    forall x | x in next ensures LatestOfValidator(rs + [r], x) {
      if x in latest && x.validatorId != r.validatorId {
        assert LatestOfValidator(rs, x);
      } else if at < |latest| {
        assert latest[at] in latest && LatestOfValidator(rs, latest[at]);
      } else {
        assert forall i :: 0 <= i < |rs| ==> rs[i].validatorId != r.validatorId;
      }
    }
  }

  /** The loop returns one latest response of every validator heard. */
  lemma {:induction false} LatestByValidatorExact(rs: seq<ValidatorResponse>)
    ensures LatestView(rs, LatestByValidator(rs))
  {
    if rs != [] {
      var front, r := rs[..|rs| - 1], rs[|rs| - 1];
      LatestByValidatorExact(front);
      var latest := LatestByValidator(front);
      SplitLast(rs);
      UpsertOnePerValidator(latest, r);
      UpsertLatest(front, latest, r);
      forall i | 0 <= i < |rs| ensures Find(Upsert(latest, r), rs[i].validatorId) < |Upsert(latest, r)| {
        assert i < |front| ==> front[i] == rs[i];
        UpsertFinds(latest, r, rs[i].validatorId);
      }
    }
  }

  lemma SameValidatorKey(t: Table<ValidatorResponse>, a: ValidatorResponse, b: ValidatorResponse)
    requires StoredValidators(t) && a in t.order && b in t.order
    requires a.validatorId == b.validatorId && a.attempt == b.attempt
    ensures a == b
  {
    assert ValidatorKey(a) == ValidatorKey(b);
  }

  /** Membership in the view: exactly the responses no later response supersedes. */
  lemma ValidatorViewExact(t: Table<ValidatorResponse>, rs: seq<ValidatorResponse>, r: ValidatorResponse)
    requires StoredValidators(t)
    requires forall x :: x in rs <==> x in t.order
    ensures r in LatestByValidator(rs) <==> LatestOfValidator(t.order, r)
  {
    var latest := LatestByValidator(rs);
    LatestByValidatorExact(rs);
    if r in latest {
      assert LatestOfValidator(rs, r);
      forall i | 0 <= i < |t.order| && t.order[i].validatorId == r.validatorId
        ensures t.order[i].attempt <= r.attempt
      {
        assert t.order[i] in rs;
      }
    }
    if LatestOfValidator(t.order, r) {
      assert r in rs;
      var i :| 0 <= i < |rs| && rs[i] == r;
      var w := latest[Find(latest, rs[i].validatorId)];
      assert w in latest && LatestOfValidator(rs, w) && w in t.order;
      SameValidatorKey(t, w, r);
    }
  }

  /** Two lists without repetition and with the same elements have the same length. */
  lemma {:induction false} SameLength<T>(a: seq<T>, b: seq<T>)
    requires NoDuplicates(a) && NoDuplicates(b)
    requires forall x :: x in a <==> x in b
    ensures |a| == |b|
  {
    DistinctCount(a);
    DistinctCount(b);
    assert (set x | x in a) == (set x | x in b);
  }

  lemma {:induction false} DistinctCount<T>(a: seq<T>)
    requires NoDuplicates(a)
    ensures |set x | x in a| == |a|
  {
    if a != [] {
      var front, last := a[..|a| - 1], a[|a| - 1];
      DistinctCount(front);
      assert forall i :: 0 <= i < |front| ==> front[i] == a[i] && a[i] != a[|a| - 1];
      assert (set x | x in a) == (set x | x in front) + {last};
    }
  }

  lemma {:induction false} LeastConfidenceExact(rs: seq<ValidatorResponse>)
    requires rs != []
    ensures forall r :: r in rs ==> LeastConfidence(rs) <= r.confidence
    ensures exists r :: r in rs && r.confidence == LeastConfidence(rs)
  {
    if |rs| == 1 {
      assert rs[0] in rs;
    } else {
      var front, last := rs[..|rs| - 1], rs[|rs| - 1];
      LeastConfidenceExact(front);
      var w :| w in front && w.confidence == LeastConfidence(front);
      assert w in rs && last in rs;
      forall r | r in rs ensures LeastConfidence(rs) <= r.confidence {
        assert r in front || r == last;
      }
    }
  }

  lemma SameElementsSameDecision(a: seq<ValidatorResponse>, b: seq<ValidatorResponse>)
    requires a != [] && b != []
    requires forall r :: r in a <==> r in b
    ensures Unanimous(a) <==> Unanimous(b)
    ensures Unanimous(a) ==> a[0].choice == b[0].choice
    ensures LeastConfidence(a) == LeastConfidence(b)
  {
    assert a[0] in b && b[0] in a;
    UnanimousByMembership(a);
    UnanimousByMembership(b);
    LeastConfidenceExact(a);
    LeastConfidenceExact(b);
  }

  lemma SameViewMembers(t: Table<ValidatorResponse>, rs: seq<ValidatorResponse>)
    requires StoredValidators(t)
    requires forall r :: r in rs <==> r in t.order
    ensures forall r :: r in LatestByValidator(rs) <==> r in LatestByValidator(t.order)
    ensures |LatestByValidator(rs)| == |LatestByValidator(t.order)|
  {
    var a, b := LatestByValidator(rs), LatestByValidator(t.order);
    forall r ensures r in a <==> r in b {
      ValidatorViewExact(t, rs, r);
      ValidatorViewExact(t, t.order, r);
    }
    LatestByValidatorExact(rs);
    LatestByValidatorExact(t.order);
    SameLength(a, b);
  }

  /** The consensus decision is the same for every iteration order of the dictionary. */
  lemma ValidatorDecisionOrderIndependent(t: Table<ValidatorResponse>, rs: seq<ValidatorResponse>, required: nat)
    requires StoredValidators(t)
    requires forall r :: r in rs <==> r in t.order
    ensures ReadValidators(rs, required) == ReadValidators(t.order, required)
  {
    SameViewMembers(t, rs);
    var a, b := LatestByValidator(rs), LatestByValidator(t.order);
    if a != [] {
      SameElementsSameDecision(a, b);
    }
  }

  lemma UnanimousByMembership(rs: seq<ValidatorResponse>)
    requires rs != []
    ensures Unanimous(rs) <==> forall x, y :: x in rs && y in rs ==> x.choice == y.choice
  {
    if forall x, y :: x in rs && y in rs ==> x.choice == y.choice {
      forall i | 0 <= i < |rs| ensures rs[i].choice == rs[0].choice {
        assert rs[i] in rs && rs[0] in rs;
      }
    }
  }
}
