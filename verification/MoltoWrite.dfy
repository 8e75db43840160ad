/**
 Writing one Molto2 slot: three commands, any of which may fail or lose its
 answer, and what that leaves in the slot.
 */
module MoltoWrite {
  import opened Prelude
  import opened Bytes
  import opened ImportModel
  import opened ImportPlan
  import opened PlanLaws
  import opened ImportRun
  import Utf8

  const TITLE_MAX: nat := 12
  const SEED_MAX: nat := 63

  /** What the commands can carry: checked before the first is sent. */
  predicate Sendable(name: StoredName, e: ImportEntry) {
    && name.MoltoName? && 1 <= |Utf8.Encode(name.title)| <= TITLE_MAX
    && 1 <= |e.secret| <= SEED_MAX
    && e.hash != Sha512 && MoltoDigits(e.digits)
    && e.kind.Totp? && (e.kind.period == 30 || e.kind.period == 60)
  }

  /** What becomes of one command: lost is carried out all the same. */
  datatype Fate = Done | Refused | Lost

  /** A slot never written. */
  const EMPTY_SLOT := Code(ImportEntry(None, None, [], Sha1, 6, Totp(30)), false)

  function SetSeed(was: Code, code: Code): Code {
    was.(entry := was.entry.(secret := code.entry.secret))
  }

  /** A slot's title is made from the entry's issuer and account. */
  function SetTitle(was: Code, code: Code): Code {
    was.(entry := was.entry.(issuer := code.entry.issuer, account := code.entry.account))
  }

  function SetSettings(was: Code, code: Code): Code {
    Code(was.entry.(hash := code.entry.hash, digits := code.entry.digits, kind := code.entry.kind), code.touch)
  }

  /** The slot after the first `n` commands. */
  function AfterCommands(was: Code, code: Code, n: nat): Code {
    if n == 0 then was
    else if n == 1 then SetSeed(was, code)
    else if n == 2 then SetTitle(SetSeed(was, code), code)
    else SetSettings(SetTitle(SetSeed(was, code), code), code)
  }

  function Slotted(codes: Codes, name: StoredName): Code {
    if PlaceOf(name) in codes then codes[PlaceOf(name)] else EMPTY_SLOT
  }

  /** The slot rewritten by as many commands as were carried out. */
  function Carried(codes: Codes, name: StoredName, code: Code, n: nat): Codes {
    if n == 0 then codes else codes[PlaceOf(name) := AfterCommands(Slotted(codes, name), code, n)]
  }

  const FAILED: Answer := Err(Failure("the command failed"))

  /** The commands in order, up to the first with no good answer. */
  function WriteSlot(codes: Codes, name: StoredName, code: Code, seed: Fate, title: Fate, settings: Fate)
    : (Codes, Answer)
  {
    if !Sendable(name, code.entry) then (codes, FAILED)
    else if seed != Done then (Carried(codes, name, code, if seed == Lost then 1 else 0), FAILED)
    else if title != Done then (Carried(codes, name, code, if title == Lost then 2 else 1), FAILED)
    else if settings != Done then (Carried(codes, name, code, if settings == Lost then 3 else 2), FAILED)
    else (Carried(codes, name, code, 3), Ok(()))
  }

  lemma AllThreeStoreTheCode(was: Code, code: Code)
    ensures AfterCommands(was, code, 3) == code
  {
  }

  /** However its commands fare, writing a slot is an add as a lawful key's is; it succeeds exactly when all do. */
  lemma WriteSlotIsAnAdd(codes: Codes, name: StoredName, code: Code, seed: Fate, title: Fate, settings: Fate)
    ensures var (after, r) := WriteSlot(codes, name, code, seed, title, settings);
            && AddKeeps(codes, after, r, name, code)
            && (r.Ok? <==> Sendable(name, code.entry) && seed == Done && title == Done && settings == Done)
            && (r.Err? ==> r.error.Failure?)
  {
    hide Utf8.Encode;
    var (after, r) := WriteSlot(codes, name, code, seed, title, settings);
    AllThreeStoreTheCode(Slotted(codes, name), code);
    assert after - {PlaceOf(name)} == codes - {PlaceOf(name)};
  }

  /** A title the key refuses leaves the new seed under the old title and settings, in a slot that had them. */
  lemma NewSeedUnderTheOldTitle(codes: Codes, name: StoredName, code: Code)
    requires Sendable(name, code.entry) && PlaceOf(name) in codes
    ensures var (after, r) := WriteSlot(codes, name, code, Done, Refused, Done);
            var was := codes[PlaceOf(name)];
            && r == FAILED && PlaceOf(name) in after
            && after[PlaceOf(name)] == was.(entry := was.entry.(secret := code.entry.secret))
  {
  }

  /**
   What a Molto2 plan writes can be sent: a planned row's own entry passes every
   check made before the first command if and only if it has a secret.
   */
  lemma PlannedIsSendable(file: ImportFile, t: Target, i: nat)
    requires t.store == Molto2 && i < |file| && PlanOf(file, t).rows[i].Writes()
    ensures PlanOf(file, t).rows[i].name.Some? && file[i].entry.Ok?
    ensures Sendable(PlanOf(file, t).rows[i].name.value, file[i].entry.value) <==> file[i].entry.value.secret != []
  {
    hide PlanRows, LimitsOf, Titled, PlanOf, Candidates, SlotInUse, Utf8.Encode, CountWrites;
    WritesAreCandidates(file, t, i);
    CandidatesAre(file, t);
    SlotsAreConsecutive(AskOf(t), file, Pass(map[], t.firstSlot), i);
    TitledIsSendable(file[i]);
  }

  lemma TitledIsSendable(item: ImportItem)
    requires Titled(item).Ok?
    ensures item.entry.Ok?
    ensures var e := item.entry.value;
            && |e.secret| <= SEED_MAX && e.hash != Sha512 && MoltoDigits(e.digits)
            && e.kind.Totp? && (e.kind.period == 30 || e.kind.period == 60)
            && 1 <= |Utf8.Encode(Titled(item).value)| <= TITLE_MAX
  {
    hide Utf8.Encode, LongestPrefix;
    var e := item.entry.value;
    var whole := if e.issuer.Some? then e.issuer.value else if e.account.Some? then e.account.value else [];
    LongestPrefixEndsAtBoundary(whole, TITLE_MAX);
    Utf8.EncodeBound(Titled(item).value);
  }
}
