/** The motion ledger: passed motions are registered once, under stable mandate ids. */
module Registrar {
  import opened Prelude

  datatype Motion = Motion(motionId: Option<string>, title: string, text: string)

  datatype Results = Results(sessionId: Option<string>, recordedAt: string, passed: seq<Motion>)

  datatype Mandate = Mandate(mandateId: nat, ledgerEntryId: nat, sessionId: string, motionId: Option<string>,
                             title: string, text: string, passedAt: string)

  datatype Key = Key(sessionId: string, motionId: Option<string>)

  /** The ledger's entries, the mandate files by mandate id, and the supply of fresh ids. */
  datatype Ledger = Ledger(entries: seq<Mandate>, files: map<nat, Mandate>, nextId: nat)

  function Session(r: Results): string {
    if r.sessionId.None? || r.sessionId.value == "" then "unknown-session" else r.sessionId.value
  }

  function KeyOf(m: Mandate): Key {
    Key(m.sessionId, m.motionId)
  }

  function Keys(entries: seq<Mandate>): (ks: seq<Key>)
    ensures |ks| == |entries|
    ensures forall i :: 0 <= i < |entries| ==> ks[i] == KeyOf(entries[i])
  {
    seq(|entries|, i requires 0 <= i < |entries| => KeyOf(entries[i]))
  }

  /** The index of the entries present when a registration starts; a later entry wins. */
  function Existing(entries: seq<Mandate>): map<Key, Mandate> {
    if entries == [] then map[]
    else Existing(entries[..|entries| - 1])[KeyOf(entries[|entries| - 1]) := entries[|entries| - 1]]
  }

  datatype Registration = Registration(ledger: Ledger, mandates: seq<Mandate>)

  function NewMandate(r: Results, m: Motion, mandateId: nat, entryId: nat): Mandate {
    Mandate(mandateId, entryId, Session(r), m.motionId, m.title, m.text, r.recordedAt)
  }

  /** One passed motion: reuses the ids of a prior entry or draws fresh ones; loads the mandate
      file or writes it; appends to the ledger unless there was a prior entry. */
  function RegisterMotion(existing: map<Key, Mandate>, r: Results, m: Motion, reg: Registration): Registration {
    var l, k := reg.ledger, Key(Session(r), m.motionId);
    var prior := k in existing;
    var mandateId := if prior then existing[k].mandateId else l.nextId;
    var entryId := if prior then existing[k].ledgerEntryId else l.nextId + 1;
    var mandate := if mandateId in l.files then l.files[mandateId] else NewMandate(r, m, mandateId, entryId);
    Registration(
      Ledger(if prior then l.entries else l.entries + [mandate],
             l.files[mandateId := mandate],
             if prior then l.nextId else l.nextId + 2),
      reg.mandates + [mandate])
  }

  function RegisterMotions(existing: map<Key, Mandate>, r: Results, motions: seq<Motion>, l: Ledger): Registration {
    if motions == [] then Registration(l, []) else
      RegisterMotion(existing, r, motions[|motions| - 1],
                     RegisterMotions(existing, r, motions[..|motions| - 1], l))
  }

  function Register(l: Ledger, r: Results): Registration {
    RegisterMotions(Existing(l.entries), r, r.passed, l)
  }

  function RegisterAll(l: Ledger, batches: seq<Results>): Ledger {
    if batches == [] then l
    else Register(RegisterAll(l, batches[..|batches| - 1]), batches[|batches| - 1]).ledger
  }

  class LedgerDirectory {
    var entries: seq<Mandate>
    var files: map<nat, Mandate>
    var nextId: nat

    function View(): Ledger
      reads this
    {
      Ledger(entries, files, nextId)
    }

    constructor ()
      ensures View() == Ledger([], map[], 0)
    {
      entries, files, nextId := [], map[], 0;
    }

    method IndexEntries() returns (existing: map<Key, Mandate>)
      ensures existing == Existing(entries)
    {
      existing := map[];
      for i := 0 to |entries|
        invariant existing == Existing(entries[..i])
      {
        assert entries[..i + 1][..i] == entries[..i];
        existing := existing[KeyOf(entries[i]) := entries[i]];
      }
      assert entries[..|entries|] == entries;
    }

    method RegisterConclave(r: Results) returns (mandates: seq<Mandate>)
      modifies this
      ensures Registration(View(), mandates) == Register(old(View()), r)
    {
      var existing := IndexEntries();
      mandates := [];
      for i := 0 to |r.passed|
        invariant Registration(View(), mandates) == RegisterMotions(existing, r, r.passed[..i], old(View()))
      {
        assert r.passed[..i + 1][..i] == r.passed[..i];
        var m := r.passed[i];
        var key := Key(Session(r), m.motionId);
        var prior := key in existing;
        var mandateId, entryId := nextId, nextId + 1;
        if prior {
          mandateId, entryId := existing[key].mandateId, existing[key].ledgerEntryId;
        } else {
          nextId := nextId + 2;
        }
        var mandate: Mandate;
        if mandateId in files {
          mandate := files[mandateId];
        } else {
          mandate := NewMandate(r, m, mandateId, entryId);
        }
        files := files[mandateId := mandate];
        mandates := mandates + [mandate];
        if !prior {
          entries := entries + [mandate];
        }
      }
      assert r.passed[..|r.passed|] == r.passed;
    }
  }

  // ---------- theorems ----------

  ghost predicate UniqueKeys(l: Ledger) {
    NoDuplicates(Keys(l.entries))
  }

  /** Every entry has its mandate file, and all ids handed out are below the supply. */
  ghost predicate Filed(l: Ledger) {
    && (forall i :: 0 <= i < |l.entries| ==>
          l.entries[i].mandateId in l.files && l.files[l.entries[i].mandateId] == l.entries[i])
    && (forall id :: id in l.files ==> id < l.nextId)
  }

  lemma {:induction false} ExistingExact(entries: seq<Mandate>, k: Key)
    ensures k in Existing(entries) <==> k in Keys(entries)
    ensures k in Existing(entries) ==> Existing(entries)[k] in entries && KeyOf(Existing(entries)[k]) == k
  {
    if entries != [] {
      var front, last := entries[..|entries| - 1], entries[|entries| - 1];
      ExistingExact(front, k);
      assert forall i :: 0 <= i < |front| ==> Keys(front)[i] == Keys(entries)[i];
      assert Keys(entries)[|entries| - 1] == KeyOf(last);
      assert last in entries && forall x :: x in front ==> x in entries;
    }
  }

  /** The keys of the motions that were not registered before, in order. */
  function FreshKeys(existing: map<Key, Mandate>, r: Results, motions: seq<Motion>): seq<Key> {
    if motions == [] then [] else
      var k := Key(Session(r), motions[|motions| - 1].motionId);
      FreshKeys(existing, r, motions[..|motions| - 1]) + if k in existing then [] else [k]
  }

  /** What registering motions does to the ledger and returns. */
  ghost predicate Registered(l: Ledger, r: Results, motions: seq<Motion>, reg: Registration) {
    && Filed(reg.ledger)
    && l.entries <= reg.ledger.entries
    && (forall id :: id in l.files ==> id in reg.ledger.files && reg.ledger.files[id] == l.files[id])
    && Keys(reg.ledger.entries) == Keys(l.entries) + FreshKeys(Existing(l.entries), r, motions)
    && |reg.mandates| == |motions|
    && (forall i :: 0 <= i < |motions| ==>
          && reg.mandates[i] in reg.ledger.entries && KeyOf(reg.mandates[i]) == Key(Session(r), motions[i].motionId)
          && MandateFor(Existing(l.entries), r, motions[i], reg.mandates[i]))
  }

  /** A mandate is the prior entry of its motion, or carries the motion as it was passed. */
  ghost predicate MandateFor(existing: map<Key, Mandate>, r: Results, m: Motion, mandate: Mandate) {
    var k := Key(Session(r), m.motionId);
    if k in existing then mandate == existing[k]
    else mandate == NewMandate(r, m, mandate.mandateId, mandate.ledgerEntryId)
  }

  lemma RegisterPrior(l: Ledger, r: Results, motions: seq<Motion>, m: Motion, reg: Registration)
    requires Filed(l) && Registered(l, r, motions, reg)
    requires Key(Session(r), m.motionId) in Existing(l.entries)
    ensures Registered(l, r, motions + [m], RegisterMotion(Existing(l.entries), r, m, reg))
  {
    var existing, k := Existing(l.entries), Key(Session(r), m.motionId);
    var after := RegisterMotion(existing, r, m, reg);
    assert (motions + [m])[..|motions|] == motions;
    ExistingExact(l.entries, k);
    var i :| 0 <= i < |l.entries| && l.entries[i] == existing[k];
    assert reg.ledger.entries[i] == existing[k];
    assert after.ledger == reg.ledger;
    assert after.mandates == reg.mandates + [existing[k]];
  }

  lemma RegisterFresh(l: Ledger, r: Results, motions: seq<Motion>, m: Motion, reg: Registration)
    requires Filed(l) && Registered(l, r, motions, reg)
    requires Key(Session(r), m.motionId) !in Existing(l.entries)
    ensures Registered(l, r, motions + [m], RegisterMotion(Existing(l.entries), r, m, reg))
  {
    var after := RegisterMotion(Existing(l.entries), r, m, reg);
    var mandate := NewMandate(r, m, reg.ledger.nextId, reg.ledger.nextId + 1);
    assert (motions + [m])[..|motions|] == motions;
    assert after.ledger.entries == reg.ledger.entries + [mandate];
    assert after.ledger.entries[|reg.ledger.entries|] == mandate;
    assert after.mandates == reg.mandates + [mandate];
    assert Keys(after.ledger.entries) == Keys(reg.ledger.entries) + [KeyOf(mandate)];
    forall i | 0 <= i < |motions| ensures reg.mandates[i] in after.ledger.entries {
      var j :| 0 <= j < |reg.ledger.entries| && reg.ledger.entries[j] == reg.mandates[i];
      assert after.ledger.entries[j] == reg.mandates[i];
    }
  }

  lemma {:induction false} RegisterMotionsExact(l: Ledger, r: Results, motions: seq<Motion>)
    requires Filed(l)
    ensures Registered(l, r, motions, RegisterMotions(Existing(l.entries), r, motions, l))
  {
    if motions != [] {
      var front := motions[..|motions| - 1];
      RegisterMotionsExact(l, r, front);
      var reg, last := RegisterMotions(Existing(l.entries), r, front, l), motions[|motions| - 1];
      if Key(Session(r), last.motionId) in Existing(l.entries) {
        RegisterPrior(l, r, front, last, reg);
      } else {
        RegisterFresh(l, r, front, last, reg);
      }
      SplitLast(motions);
    }
  }

  lemma {:induction false} FreshKeysAbsent(l: Ledger, r: Results, motions: seq<Motion>)
    ensures forall k :: k in FreshKeys(Existing(l.entries), r, motions) ==> k !in Keys(l.entries)
    ensures forall i :: 0 <= i < |motions| ==>
              var k := Key(Session(r), motions[i].motionId);
              k in Keys(l.entries) || k in FreshKeys(Existing(l.entries), r, motions)
    ensures forall k :: k in FreshKeys(Existing(l.entries), r, motions) ==>
              exists i :: 0 <= i < |motions| && k == Key(Session(r), motions[i].motionId)
  {
    if motions != [] {
      var last := motions[|motions| - 1];
      FreshKeysAbsent(l, r, motions[..|motions| - 1]);
      ExistingExact(l.entries, Key(Session(r), last.motionId));
    }
  }

  lemma ConcatDistinct<T>(a: seq<T>, b: seq<T>)
    requires NoDuplicates(a) && forall x :: x in b ==> x !in a
    ensures NoDuplicates(a + b) <==> NoDuplicates(b)
  {
    if NoDuplicates(a + b) {
      forall i, j | 0 <= i < j < |b| ensures b[i] != b[j] {
        assert (a + b)[|a| + i] == b[i] && (a + b)[|a| + j] == b[j];
      }
    }
    if NoDuplicates(b) {
      forall i, j | 0 <= i < j < |a + b| ensures (a + b)[i] != (a + b)[j] {
        if i < |a| <= j {
          assert b[j - |a|] in b && a[i] in a;
        }
      }
    }
  }

  /** A registration only appends entries and files, files every entry, records the key of
      every passed motion and no other, and returns for each motion the entry of its key. The
      keys stay unique exactly when no two motions new to the ledger share an id. */
  lemma RegistrationExact(l: Ledger, r: Results)
    requires Filed(l) && UniqueKeys(l)
    ensures var reg := Register(l, r);
            && Registered(l, r, r.passed, reg)
            && (UniqueKeys(reg.ledger) <==> NoDuplicates(FreshKeys(Existing(l.entries), r, r.passed)))
            && (forall k :: k in Keys(reg.ledger.entries) <==>
                  k in Keys(l.entries) || exists i :: 0 <= i < |r.passed| && k == Key(Session(r), r.passed[i].motionId))
  {
    RegisterMotionsExact(l, r, r.passed);
    FreshKeysAbsent(l, r, r.passed);
    ConcatDistinct(Keys(l.entries), FreshKeys(Existing(l.entries), r, r.passed));
  }

  /** Distinct motion ids within one result suffice. */
  ghost predicate DistinctMotions(r: Results) {
    forall i, j :: 0 <= i < j < |r.passed| ==> r.passed[i].motionId != r.passed[j].motionId
  }

  lemma {:induction false} DistinctMotionsFresh(existing: map<Key, Mandate>, r: Results, motions: seq<Motion>)
    requires forall i, j :: 0 <= i < j < |motions| ==> motions[i].motionId != motions[j].motionId
    ensures NoDuplicates(FreshKeys(existing, r, motions))
    ensures forall k :: k in FreshKeys(existing, r, motions) ==>
              exists i :: 0 <= i < |motions| && k == Key(Session(r), motions[i].motionId)
  {
    if motions != [] {
      var front, k := motions[..|motions| - 1], Key(Session(r), motions[|motions| - 1].motionId);
      DistinctMotionsFresh(existing, r, front);
      assert forall i :: 0 <= i < |front| ==> front[i].motionId != k.motionId;
      assert k !in FreshKeys(existing, r, front);
    }
  }

  /** Any sequence of registrations, each with distinct motion ids, keeps the ledger filed and
      its keys unique, only appends, and ends with exactly the motions passed so far. */
  lemma {:induction false} LedgerHistory(l: Ledger, batches: seq<Results>)
    requires Filed(l) && UniqueKeys(l)
    requires forall b :: b in batches ==> DistinctMotions(b)
    ensures var l' := RegisterAll(l, batches);
            && Filed(l') && UniqueKeys(l') && l.entries <= l'.entries
            && (forall k :: k in Keys(l'.entries) <==>
                  k in Keys(l.entries)
                  || exists b, i :: b in batches && 0 <= i < |b.passed| && k == Key(Session(b), b.passed[i].motionId))
  {
    if batches != [] {
      var front, last := batches[..|batches| - 1], batches[|batches| - 1];
      assert last in batches && forall b :: b in front ==> b in batches;
      LedgerHistory(l, front);
      var before := RegisterAll(l, front);
      RegistrationExact(before, last);
      DistinctMotionsFresh(Existing(before.entries), last, last.passed);
      assert forall b :: b in batches <==> b in front || b == last;
    }
  }

  lemma {:induction false} NothingFresh(existing: map<Key, Mandate>, r: Results, motions: seq<Motion>)
    requires forall i :: 0 <= i < |motions| ==> Key(Session(r), motions[i].motionId) in existing
    ensures FreshKeys(existing, r, motions) == []
  {
    if motions != [] {
      NothingFresh(existing, r, motions[..|motions| - 1]);
    }
  }

  lemma SameKeySameEntry(l: Ledger, a: Mandate, b: Mandate)
    requires UniqueKeys(l) && a in l.entries && b in l.entries && KeyOf(a) == KeyOf(b)
    ensures a == b
  {
    var i :| 0 <= i < |l.entries| && l.entries[i] == a;
    var j :| 0 <= j < |l.entries| && l.entries[j] == b;
    assert Keys(l.entries)[i] == Keys(l.entries)[j];
  }

  /** Registering motions whose mandates the ledger holds adds nothing and returns those. */
  lemma RegisterKnown(l: Ledger, r: Results, mandates: seq<Mandate>)
    requires Filed(l) && UniqueKeys(l) && |mandates| == |r.passed|
    requires forall i :: 0 <= i < |mandates| ==>
               mandates[i] in l.entries && KeyOf(mandates[i]) == Key(Session(r), r.passed[i].motionId)
    ensures Register(l, r).ledger.entries == l.entries && Register(l, r).mandates == mandates
  {
    var reg := Register(l, r);
    RegistrationExact(l, r);
    forall i | 0 <= i < |r.passed| ensures Key(Session(r), r.passed[i].motionId) in Existing(l.entries) {
      KnownKey(l, mandates[i]);
    }
    NothingFresh(Existing(l.entries), r, r.passed);
    assert |reg.ledger.entries| == |l.entries|;
    forall i | 0 <= i < |r.passed| ensures reg.mandates[i] == mandates[i] {
      SameKeySameEntry(l, reg.mandates[i], mandates[i]);
    }
  }

  lemma KnownKey(l: Ledger, m: Mandate)
    requires m in l.entries
    ensures KeyOf(m) in Existing(l.entries)
  {
    ExistingExact(l.entries, KeyOf(m));
    var i :| 0 <= i < |l.entries| && l.entries[i] == m;
    assert Keys(l.entries)[i] == KeyOf(m);
  }

  /** Registering a result again, at once or after any other registrations, adds nothing to
      the ledger and returns the same mandates. */
  lemma ReregistrationIdempotent(l: Ledger, r: Results, later: seq<Results>)
    requires Filed(l) && UniqueKeys(l) && DistinctMotions(r)
    requires forall b :: b in later ==> DistinctMotions(b)
    ensures var first := Register(l, r);
            var then' := RegisterAll(first.ledger, later);
            var again := Register(then', r);
            && again.ledger.entries == then'.entries
            && again.mandates == first.mandates
  {
    var first := Register(l, r);
    RegistrationExact(l, r);
    DistinctMotionsFresh(Existing(l.entries), r, r.passed);
    LedgerHistory(first.ledger, later);
    RegisterKnown(RegisterAll(first.ledger, later), r, first.mandates);
  }

  // ---------- what a mandate carries ----------

  /** The session a result is registered under. */
  function NamedSession(r: Results): string {
    match r.sessionId
    case Some(x) => if |x| > 0 then x else "unknown-session"
    case None => "unknown-session"
  }

  /** The ledger has an entry for the motion of that session. */
  ghost predicate Holds(l: Ledger, session: string, motion: Option<string>) {
    exists i :: 0 <= i < |l.entries| && l.entries[i].sessionId == session && l.entries[i].motionId == motion
  }

  lemma HoldsExactly(l: Ledger, session: string, motion: Option<string>)
    ensures Holds(l, session, motion) <==> Key(session, motion) in Existing(l.entries)
  {
    ExistingExact(l.entries, Key(session, motion));
    if Holds(l, session, motion) {
      var i :| 0 <= i < |l.entries| && l.entries[i].sessionId == session && l.entries[i].motionId == motion;
      assert Keys(l.entries)[i] == Key(session, motion);
    }
    if Key(session, motion) in Keys(l.entries) {
      var i :| 0 <= i < |Keys(l.entries)| && Keys(l.entries)[i] == Key(session, motion);
      assert l.entries[i].sessionId == session;
    }
  }

  /** The mandate returned for a motion is of the result's session and is in the ledger. If the
      ledger held the motion before, it is the entry it held; otherwise it carries the motion's
      own fields and the result's date. */
  lemma MandateCarries(l: Ledger, r: Results, i: nat)
    requires Filed(l) && UniqueKeys(l) && i < |r.passed|
    ensures var reg, m := Register(l, r), r.passed[i];
            && |reg.mandates| == |r.passed|
            && reg.mandates[i].sessionId == NamedSession(r) && reg.mandates[i].motionId == m.motionId
            && reg.mandates[i] in reg.ledger.entries
            && (if Holds(l, NamedSession(r), m.motionId) then reg.mandates[i] in l.entries
                else reg.mandates[i].title == m.title && reg.mandates[i].text == m.text
                     && reg.mandates[i].passedAt == r.recordedAt)
  {
    RegistrationExact(l, r);
    HoldsExactly(l, NamedSession(r), r.passed[i].motionId);
    ExistingExact(l.entries, Key(NamedSession(r), r.passed[i].motionId));
    assert KeyOf(Register(l, r).mandates[i]) == Key(Session(r), r.passed[i].motionId);
  }

  /** Two results of different sessions never share a mandate, even for motions of the same id,
      and the ledger ends up with both. */
  lemma SessionsSeparate(l: Ledger, r: Results, r': Results, i: nat, j: nat)
    requires Filed(l) && UniqueKeys(l) && DistinctMotions(r) && DistinctMotions(r')
    requires NamedSession(r) != NamedSession(r') && i < |r.passed| && j < |r'.passed|
    ensures var first := Register(l, r);
            var second := Register(first.ledger, r');
            && i < |first.mandates| && j < |second.mandates|
            && first.mandates[i] != second.mandates[j]
            && first.mandates[i].sessionId == NamedSession(r) && second.mandates[j].sessionId == NamedSession(r')
            && Holds(second.ledger, NamedSession(r), r.passed[i].motionId)
            && Holds(second.ledger, NamedSession(r'), r'.passed[j].motionId)
  {
    var first := Register(l, r);
    RegistrationExact(l, r);
    DistinctMotionsFresh(Existing(l.entries), r, r.passed);
    MandateCarries(l, r, i);
    RegistrationExact(first.ledger, r');
    MandateCarries(first.ledger, r', j);
    var second := Register(first.ledger, r');
    EntryHeld(second.ledger, first.mandates[i]);
    EntryHeld(second.ledger, second.mandates[j]);
  }

  lemma EntryHeld(l: Ledger, m: Mandate)
    requires m in l.entries
    ensures Holds(l, m.sessionId, m.motionId)
  {
    var i :| 0 <= i < |l.entries| && l.entries[i] == m;
    assert l.entries[i].sessionId == m.sessionId;
  }

  /** Entries have mandate and ledger ids of their own, all drawn from the supply. */
  ghost predicate Numbered(l: Ledger) {
    && (forall i :: 0 <= i < |l.entries| ==> l.entries[i].mandateId < l.nextId && l.entries[i].ledgerEntryId < l.nextId)
    && (forall i, j :: 0 <= i < j < |l.entries| ==>
          l.entries[i].mandateId != l.entries[j].mandateId && l.entries[i].ledgerEntryId != l.entries[j].ledgerEntryId)
  }

  lemma MotionNumbered(existing: map<Key, Mandate>, r: Results, m: Motion, reg: Registration)
    requires Filed(reg.ledger) && Numbered(reg.ledger)
    ensures Numbered(RegisterMotion(existing, r, m, reg).ledger)
  {
  }

  lemma {:induction false} MotionsNumbered(l: Ledger, r: Results, motions: seq<Motion>)
    requires Filed(l) && Numbered(l)
    ensures Numbered(RegisterMotions(Existing(l.entries), r, motions, l).ledger)
  {
    if motions != [] {
      var front := motions[..|motions| - 1];
      MotionsNumbered(l, r, front);
      RegisterMotionsExact(l, r, front);
      MotionNumbered(Existing(l.entries), r, motions[|motions| - 1], RegisterMotions(Existing(l.entries), r, front, l));
    }
  }

  /** No registration ever gives two entries the same mandate id or ledger id. */
  lemma {:induction false} IdsUnique(l: Ledger, batches: seq<Results>)
    requires Filed(l) && Numbered(l)
    ensures Filed(RegisterAll(l, batches)) && Numbered(RegisterAll(l, batches))
  {
    if batches != [] {
      var front, last := batches[..|batches| - 1], batches[|batches| - 1];
      IdsUnique(l, front);
      RegisterMotionsExact(RegisterAll(l, front), last, last.passed);
      MotionsNumbered(RegisterAll(l, front), last, last.passed);
    }
  }
}
