/** Field encryption and its key rotation. A sealed box is ideal: it opens exactly under the key and
    the associated data it was sealed with. */
module KeyRotation {
  import opened Basics

  type Key = nat

  /** The loaded keys by key id, and the id new envelopes are sealed under. */
  datatype Keyring = Keyring(keys: map<string, Key>, active: string)

  ghost predicate Usable(kr: Keyring) {
    kr.active in kr.keys
  }

  /** The keyring after every retired key has been dropped. */
  function OnlyActive(kr: Keyring): Keyring
    requires Usable(kr)
  {
    Keyring(map[kr.active := kr.keys[kr.active]], kr.active)
  }

  /** The key id member of an envelope: proper text, or something else with its printed form. */
  datatype KeyId = Named(id: string) | Other(printed: string)

  /** What an envelope holds: a box; a box that opens under nothing; members of the wrong type, with
      the envelope's own text; or no ciphertext at all, which may still be (empty) text. */
  datatype Body =
    | Box(key: Key, aad: Aad, plain: string)
    | Broken
    | Untyped(raw: string)
    | NoCipher(raw: string, typed: bool)

  /** A stored text: an AES256_GCM envelope or anything else. */
  datatype Text = Plain(chars: string) | Envelope(kid: KeyId, body: Body)

  datatype Cell = Null | NotText(printed: string) | Str(text: Text)

  /** A stored document by member name; members it lacks read as Null. */
  type Doc = map<string, Cell>

  /** Who a document is about, as printed into the associated data. */
  datatype Subject = Literal(words: string) | Json(envelope: Text)

  /** Associated data, kept as the parts it is joined from. */
  datatype Aad =
    | Full(collection: string, subject: Subject, field: string)
    | Short(collection: string, field: string)
    | NoAad

  datatype Outcome = Missing | Skipped | Blank | Current | Failed | Reseal(text: Text, migrated: bool)

  datatype Report = Report(scanned: nat, rotated: nat, current: nat, migrated: nat, skipped: nat, failed: nat)

  // ----- texts -----

  function Strip(s: string): string {
    if s == [] then s
    else if IsSpace(s[0]) then Strip(s[1..])
    else if IsSpace(s[|s| - 1]) then Strip(s[..|s| - 1])
    else s
  }

  lemma {:induction false} StripIdempotent(s: string)
    ensures Strip(Strip(s)) == Strip(s)
  {
    if s != [] {
      if IsSpace(s[0]) {
        StripIdempotent(s[1..]);
      } else if IsSpace(s[|s| - 1]) {
        StripIdempotent(s[..|s| - 1]);
      }
    }
  }

  predicate AllSpace(s: string) {
    forall i :: 0 <= i < |s| ==> IsSpace(s[i])
  }

  /** Stripping takes exactly the white space off both ends. */
  lemma {:induction false} StripExactly(s: string) returns (lead: string, trail: string)
    ensures s == lead + Strip(s) + trail && AllSpace(lead) && AllSpace(trail)
    ensures Strip(s) != "" ==> !IsSpace(Strip(s)[0]) && !IsSpace(Strip(s)[|Strip(s)| - 1])
    decreases |s|
  {
    lead, trail := "", "";
    if s != [] {
      var n := |s| - 1;
      if IsSpace(s[0]) {
        lead, trail := StripExactly(s[1..]);
        lead := [s[0]] + lead;
      } else if IsSpace(s[n]) {
        lead, trail := StripExactly(s[..n]);
        trail := trail + [s[n]];
      }
    }
  }

  predicate IsBlank(t: Text) {
    t.Plain? && Strip(t.chars) == ""
  }

  predicate LooksEncrypted(t: Text) {
    t.Envelope? && !t.body.NoCipher?
  }

  function EnvelopeKeyId(t: Text): Option<string> {
    if t.Envelope? && t.kid.Named? && t.kid.id != "" then Some(t.kid.id) else None
  }

  function LookupId(k: KeyId): string {
    match k case Named(id) => id case Other(printed) => printed
  }

  function EncryptText(kr: Keyring, plain: string, aad: Aad): Text
    requires Usable(kr)
  {
    if Strip(plain) == "" then Plain("") else Envelope(Named(kr.active), Box(kr.keys[kr.active], aad, Strip(plain)))
  }

  /** None stands for a raised error. */
  function DecryptText(kr: Keyring, t: Text, aad: Aad): Option<string> {
    match t
    case Plain(chars) => Some(Strip(chars))
    case Envelope(kid, body) =>
      if LookupId(kid) !in kr.keys then None
      else
        match body
        case Box(key, sealedFor, plain) =>
          if key == kr.keys[LookupId(kid)] && sealedFor == aad then Some(plain) else None
        case Broken => None
        case Untyped(raw) => Some(Strip(raw))
        case NoCipher(raw, typed) => if typed then None else Some(Strip(raw))
  }

  lemma EncryptThenDecrypt(kr: Keyring, plain: string, aad: Aad)
    requires Usable(kr)
    ensures DecryptText(kr, EncryptText(kr, plain, aad), aad) == Some(Strip(plain))
    ensures DecryptText(OnlyActive(kr), EncryptText(kr, plain, aad), aad) == Some(Strip(plain))
    ensures forall other :: other != aad && Strip(plain) != "" ==>
            DecryptText(kr, EncryptText(kr, plain, aad), other) == None
  {
  }

  /** What can be read of a stored text, exactly: a plain text always; an envelope only if its key id is
      loaded, and then a box with the right key and associated data, or the envelope's own text where
      its members are of the wrong type or hold no ciphertext. */
  lemma ReadableExactly(kr: Keyring, t: Text, aad: Aad, words: string)
    ensures DecryptText(kr, t, aad) == Some(words) && t.Plain? <==> t.Plain? && words == Strip(t.chars)
    ensures DecryptText(kr, t, aad) == Some(words) && t.Envelope?
            <==> && t.Envelope? && (exists id :: id in kr.keys && (t.kid == Named(id) || t.kid == Other(id)))
                 && ((t.body.Box? && kr.keys[LookupId(t.kid)] == t.body.key && aad == t.body.aad
                      && words == t.body.plain)
                     || (t.body.Untyped? && words == Strip(t.body.raw))
                     || (t.body.NoCipher? && !t.body.typed && words == Strip(t.body.raw)))
  {
    hide Strip;
    if t.Envelope? && LookupId(t.kid) in kr.keys {
      assert t.kid == Named(LookupId(t.kid)) || t.kid == Other(LookupId(t.kid));
    }
  }

  // ----- subjects and associated data -----

  const SUBJECT_KEYS: seq<string> := ["id", "email", "registration_number", "faculty_identifier", "_id"]

  function Get(doc: Doc, field: string): Cell {
    if field in doc then doc[field] else Null
  }

  /** The printed value of a cell, unless it is missing or blank. */
  function Printed(c: Cell): Option<Subject> {
    match c
    case Null => None
    case NotText(printed) => if Strip(printed) == "" then None else Some(Literal(Strip(printed)))
    case Str(Plain(chars)) => if Strip(chars) == "" then None else Some(Literal(Strip(chars)))
    case Str(Envelope(kid, body)) => Some(Json(Envelope(kid, body)))
  }

  /** The first subject key with a printable value. */
  function Deciding(doc: Doc, keys: seq<string>): Option<string> {
    if keys == [] then None
    else if Printed(Get(doc, keys[0])).Some? then Some(keys[0])
    else Deciding(doc, keys[1..])
  }

  function SubjectFrom(doc: Doc, keys: seq<string>): Subject {
    if keys == [] then Literal("unknown")
    else if Printed(Get(doc, keys[0])).Some? then Printed(Get(doc, keys[0])).value
    else SubjectFrom(doc, keys[1..])
  }

  function SubjectOf(doc: Doc): Subject {
    SubjectFrom(doc, SUBJECT_KEYS)
  }

  const SUFFIX := "_encrypted"

  function BaseField(field: string): string {
    var token := Strip(field);
    if |token| >= |SUFFIX| && token[|token| - |SUFFIX|..] == SUFFIX then token[..|token| - |SUFFIX|] else token
  }

  function CanonicalAad(coll: string, subject: Subject, field: string): Aad {
    Full(coll, subject, BaseField(field))
  }

  function Patterns(coll: string, subject: Subject, field: string): seq<Aad> {
    [CanonicalAad(coll, subject, field), Full(coll, subject, field), Short(coll, BaseField(field)), Short(coll, field),
     NoAad]
  }

  /** The patterns without repetitions, in order of first appearance. */
  function Unique(s: seq<Aad>): seq<Aad> {
    if s == [] then []
    else
      var rest := Unique(s[..|s| - 1]);
      if s[|s| - 1] in rest then rest else rest + [s[|s| - 1]]
  }

  function AadCandidates(coll: string, subject: Subject, field: string): seq<Aad> {
    Unique(Patterns(coll, subject, field))
  }

  lemma {:induction false} UniqueKeeps(s: seq<Aad>)
    ensures forall a :: a in Unique(s) <==> a in s
    ensures forall i, j :: 0 <= i < j < |Unique(s)| ==> Unique(s)[i] != Unique(s)[j]
    ensures s != [] ==> Unique(s) != [] && Unique(s)[0] == s[0]
  {
    if s != [] {
      UniqueKeeps(s[..|s| - 1]);
      assert s == s[..|s| - 1] + [s[|s| - 1]];
    }
  }

  function FirstOpening(kr: Keyring, t: Text, aads: seq<Aad>): Option<string> {
    if aads == [] then None
    else if DecryptText(kr, t, aads[0]).Some? then DecryptText(kr, t, aads[0])
    else FirstOpening(kr, t, aads[1..])
  }

  function DecryptRotationValue(kr: Keyring, t: Text, coll: string, subject: Subject, field: string): Option<string> {
    FirstOpening(kr, t, AadCandidates(coll, subject, field))
  }

  /** Trying the candidates in turn finds the plaintext exactly when one of them is right; which one
      is tried first does not matter, since a box opens to one plaintext only. */
  lemma {:induction false} FirstOpeningIs(kr: Keyring, t: Text, aads: seq<Aad>)
    ensures FirstOpening(kr, t, aads).Some? <==> exists a :: a in aads && DecryptText(kr, t, a).Some?
    ensures forall a :: a in aads && DecryptText(kr, t, a).Some? ==> FirstOpening(kr, t, aads) == DecryptText(kr, t, a)
  {
    if aads != [] {
      FirstOpeningIs(kr, t, aads[1..]);
      assert aads == [aads[0]] + aads[1..];
    }
  }

  /** A box is opened exactly when its key is loaded under its key id and it was sealed for the
      document under one of the five known patterns. */
  lemma OpensKnownPatterns(kr: Keyring, kid: KeyId, key: Key, aad: Aad, plain: string, coll: string, subject: Subject,
                           field: string)
    ensures DecryptRotationValue(kr, Envelope(kid, Box(key, aad, plain)), coll, subject, field)
            == if LookupId(kid) in kr.keys && kr.keys[LookupId(kid)] == key
                  && aad in {Full(coll, subject, BaseField(field)), Full(coll, subject, field),
                             Short(coll, BaseField(field)), Short(coll, field), NoAad}
               then Some(plain) else None
  {
    assert aad in Patterns(coll, subject, field)
           <==> aad in {Full(coll, subject, BaseField(field)), Full(coll, subject, field),
                        Short(coll, BaseField(field)), Short(coll, field), NoAad};
    var t := Envelope(kid, Box(key, aad, plain));
    UniqueKeeps(Patterns(coll, subject, field));
    FirstOpeningIs(kr, t, AadCandidates(coll, subject, field));
    hide Unique, FirstOpening, Patterns;
    if aad in Patterns(coll, subject, field) {
      assert aad in AadCandidates(coll, subject, field);
    }
  }

  // ----- one field, one document -----

  function Decide(kr: Keyring, coll: string, doc: Doc, field: string): Outcome
    requires Usable(kr)
  {
    match Get(doc, field)
    case Null => Missing
    case NotText(_) => Skipped
    case Str(text) =>
      if IsBlank(text) then Blank
      else if LooksEncrypted(text) then
        if EnvelopeKeyId(text) == Some(kr.active) then Current
        else
          match DecryptRotationValue(kr, text, coll, SubjectOf(doc), field)
          case None => Failed
          case Some(plain) => Reseal(EncryptText(kr, plain, CanonicalAad(coll, SubjectOf(doc), field)), false)
      else Reseal(EncryptText(kr, OwnText(text), CanonicalAad(coll, SubjectOf(doc), field)), true)
  }

  /** The text itself, for a value that does not look encrypted. */
  function OwnText(t: Text): string
    requires !LooksEncrypted(t)
  {
    match t case Plain(chars) => Strip(chars) case Envelope(_, NoCipher(raw, _)) => Strip(raw)
  }

  /** Each listed field has exactly one outcome, told by its cell. */
  lemma OutcomeExactly(kr: Keyring, coll: string, doc: Doc, field: string)
    requires Usable(kr)
    ensures var o, c := Decide(kr, coll, doc, field), Get(doc, field);
            && (o.Missing? <==> c.Null?) && (o.Skipped? <==> c.NotText?)
            && (o.Blank? <==> c.Str? && c.text.Plain? && Strip(c.text.chars) == "")
            && (o.Current? <==> c.Str? && LooksEncrypted(c.text) && EnvelopeKeyId(c.text) == Some(kr.active))
            && (o.Failed? <==> c.Str? && LooksEncrypted(c.text) && EnvelopeKeyId(c.text) != Some(kr.active)
                               && forall a :: a in Patterns(coll, SubjectOf(doc), field) ==>
                                 DecryptText(kr, c.text, a).None?)
            && (o.Reseal? && o.migrated <==> c.Str? && !LooksEncrypted(c.text) && !IsBlank(c.text))
  {
    UniqueKeeps(Patterns(coll, SubjectOf(doc), field));
    if Get(doc, field).Str? {
      FirstOpeningIs(kr, Get(doc, field).text, AadCandidates(coll, SubjectOf(doc), field));
    }
    hide Patterns, Unique, FirstOpening, DecryptText, SubjectOf, Strip, EncryptText, CanonicalAad;
  }

  /** What looks encrypted, and under which key id: an envelope with some ciphertext, and a key id that is
      text and not empty. */
  lemma EnvelopesExactly(t: Text)
    ensures LooksEncrypted(t) <==> t.Envelope? && (t.body.Box? || t.body.Broken? || t.body.Untyped?)
    ensures forall id :: EnvelopeKeyId(t) == Some(id) <==> t.Envelope? && t.kid == Named(id) && id != ""
  {
  }

  /** The subject is taken from the first of five members that has a value. */
  lemma SubjectIsFirst(doc: Doc)
    ensures var p := (k: string) => Printed(Get(doc, k));
            SubjectOf(doc) == if p("id").Some? then p("id").value
                              else if p("email").Some? then p("email").value
                              else if p("registration_number").Some? then p("registration_number").value
                              else if p("faculty_identifier").Some? then p("faculty_identifier").value
                              else if p("_id").Some? then p("_id").value
                              else Literal("unknown")
  {
    hide Printed, Get, SubjectFrom;
    NextSubject(doc, "id", ["email", "registration_number", "faculty_identifier", "_id"]);
    NextSubject(doc, "email", ["registration_number", "faculty_identifier", "_id"]);
    NextSubject(doc, "registration_number", ["faculty_identifier", "_id"]);
    NextSubject(doc, "faculty_identifier", ["_id"]);
    NextSubject(doc, "_id", []);
    NoSubject(doc);
    assert SUBJECT_KEYS == ["id"] + ["email", "registration_number", "faculty_identifier", "_id"];
    assert ["email", "registration_number", "faculty_identifier", "_id"]
        == ["email"] + ["registration_number", "faculty_identifier", "_id"];
    assert ["registration_number", "faculty_identifier", "_id"]
           == ["registration_number"] + ["faculty_identifier", "_id"];
    assert ["faculty_identifier", "_id"] == ["faculty_identifier"] + ["_id"];
    assert ["_id"] == ["_id"] + [];
  }

  lemma NextSubject(doc: Doc, key: string, keys: seq<string>)
    ensures SubjectFrom(doc, [key] + keys)
            == if Printed(Get(doc, key)).Some? then Printed(Get(doc, key)).value else SubjectFrom(doc, keys)
  {
    assert ([key] + keys)[1..] == keys;
  }

  lemma NoSubject(doc: Doc)
    ensures SubjectFrom(doc, []) == Literal("unknown")
  {
  }

  /** A resealed value is sealed for the collection, the subject and the field's plain name, as the policy
      that encrypts a document on its way in does: the field parent_email_encrypted for parent_email. */
  lemma SealedAsThePolicySeals(kr: Keyring, coll: string, doc: Doc, base: string)
    requires Usable(kr) && Strip(base + "_encrypted") == base + "_encrypted"
    requires Decide(kr, coll, doc, base + "_encrypted").Reseal?
    ensures var t := Decide(kr, coll, doc, base + "_encrypted").text;
            t == Plain("") || (t.Envelope? && t.kid == Named(kr.active) && t.body.Box?
                               && t.body.key == kr.keys[kr.active]
                               && t.body.aad == Full(coll, SubjectOf(doc), base))
  {
    BaseOfSuffixed(base);
    hide Strip, SubjectOf, DecryptRotationValue, BaseField;
  }

  lemma BaseOfSuffixed(base: string)
    requires Strip(base + "_encrypted") == base + "_encrypted"
    ensures BaseField(base + "_encrypted") == base
  {
    hide Strip;
    var token := base + "_encrypted";
    assert token[|token| - |SUFFIX|..] == SUFFIX && token[..|token| - |SUFFIX|] == base;
  }

  function Updates(kr: Keyring, coll: string, doc: Doc, fields: seq<string>): map<string, Cell>
    requires Usable(kr)
  {
    map f | f in fields && Decide(kr, coll, doc, f).Reseal? :: Str(Decide(kr, coll, doc, f).text)
  }

  function Rotated(kr: Keyring, coll: string, doc: Doc, fields: seq<string>): Doc
    requires Usable(kr)
  {
    doc + Updates(kr, coll, doc, fields)
  }

  function RotatedAll(kr: Keyring, coll: string, docs: seq<Doc>, fields: seq<string>): seq<Doc>
    requires Usable(kr)
  {
    seq(|docs|, i requires 0 <= i < |docs| => Rotated(kr, coll, docs[i], fields))
  }

  // ----- the report -----

  const ZERO := Report(0, 0, 0, 0, 0, 0)

  function Note(r: Report, o: Outcome): Report {
    match o
    case Missing => r
    case Blank => r
    case Skipped => r.(skipped := r.skipped + 1)
    case Current => r.(current := r.current + 1)
    case Failed => r.(failed := r.failed + 1)
    case Reseal(_, migrated) => if migrated then r.(migrated := r.migrated + 1) else r
  }

  function NoteFields(kr: Keyring, coll: string, doc: Doc, fields: seq<string>, r: Report): Report
    requires Usable(kr)
  {
    if fields == [] then r
    else Note(NoteFields(kr, coll, doc, fields[..|fields| - 1], r), Decide(kr, coll, doc, fields[|fields| - 1]))
  }

  function NoteDoc(kr: Keyring, coll: string, doc: Doc, fields: seq<string>, r: Report): Report
    requires Usable(kr)
  {
    var seen := NoteFields(kr, coll, doc, fields, r.(scanned := r.scanned + 1));
    if Updates(kr, coll, doc, fields) == map[] then seen else seen.(rotated := seen.rotated + 1)
  }

  function Tally(kr: Keyring, coll: string, docs: seq<Doc>, fields: seq<string>): Report
    requires Usable(kr)
  {
    if docs == [] then ZERO
    else NoteDoc(kr, coll, docs[|docs| - 1], fields, Tally(kr, coll, docs[..|docs| - 1], fields))
  }

  // ----- what a report without failures means -----

  ghost predicate NoFailure(kr: Keyring, coll: string, doc: Doc, fields: seq<string>)
    requires Usable(kr)
  {
    forall f :: f in fields ==> !Decide(kr, coll, doc, f).Failed?
  }

  lemma {:induction false} FieldsFailed(kr: Keyring, coll: string, doc: Doc, fields: seq<string>, r: Report)
    requires Usable(kr)
    ensures NoteFields(kr, coll, doc, fields, r).failed >= r.failed
    ensures NoteFields(kr, coll, doc, fields, r).failed == r.failed <==> NoFailure(kr, coll, doc, fields)
    ensures NoteFields(kr, coll, doc, fields, r).rotated == r.rotated
            && NoteFields(kr, coll, doc, fields, r).scanned == r.scanned
  {
    hide Decide;
    if fields != [] {
      FieldsFailed(kr, coll, doc, fields[..|fields| - 1], r);
      assert fields == fields[..|fields| - 1] + [fields[|fields| - 1]];
    }
  }

  lemma {:induction false} TallyFailed(kr: Keyring, coll: string, docs: seq<Doc>, fields: seq<string>)
    requires Usable(kr)
    ensures Tally(kr, coll, docs, fields).failed == 0
            <==> forall i :: 0 <= i < |docs| ==> NoFailure(kr, coll, docs[i], fields)
    ensures Tally(kr, coll, docs, fields).scanned == |docs|
  {
    hide NoFailure, NoteFields, Updates;
    if docs != [] {
      var n := |docs| - 1;
      TallyFailed(kr, coll, docs[..n], fields);
      var r := Tally(kr, coll, docs[..n], fields);
      FieldsFailed(kr, coll, docs[n], fields, r.(scanned := r.scanned + 1));
      assert forall i :: 0 <= i < n ==> docs[..n][i] == docs[i];
    }
  }

  /** Whether a listed cell no longer needs any retired key: it holds no text, or an envelope under
      the active key id. */
  predicate Settled(kr: Keyring, c: Cell) {
    c.Str? && !IsBlank(c.text) ==> LooksEncrypted(c.text) && EnvelopeKeyId(c.text) == Some(kr.active)
  }

  lemma EncryptedIsSettled(kr: Keyring, plain: string, aad: Aad)
    requires Usable(kr)
    ensures Settled(kr, Str(EncryptText(kr, plain, aad))) <==> Strip(plain) == "" || kr.active != ""
  {
  }

  lemma RotatedCell(kr: Keyring, coll: string, doc: Doc, fields: seq<string>, f: string)
    requires Usable(kr) && f in fields
    ensures Get(Rotated(kr, coll, doc, fields), f)
            == if Decide(kr, coll, doc, f).Reseal? then Str(Decide(kr, coll, doc, f).text) else Get(doc, f)
  {
    hide Decide;
  }

  lemma OtherCells(kr: Keyring, coll: string, doc: Doc, fields: seq<string>, f: string)
    requires Usable(kr) && (f !in fields || !Decide(kr, coll, doc, f).Reseal?)
    ensures Get(Rotated(kr, coll, doc, fields), f) == Get(doc, f)
  {
    hide Decide;
  }

  lemma DecideSettles(kr: Keyring, coll: string, doc: Doc, f: string)
    requires Usable(kr) && kr.active != ""
    ensures match Decide(kr, coll, doc, f)
            case Failed => !Settled(kr, Get(doc, f))
            case Reseal(t, _) => !Settled(kr, Get(doc, f)) && Settled(kr, Str(t))
            case _ => Settled(kr, Get(doc, f))
  {
    hide DecryptRotationValue, SubjectOf, CanonicalAad, Strip, EncryptText;
    forall plain, aad
      ensures Settled(kr, Str(EncryptText(kr, plain, aad)))
    {
      EncryptedIsSettled(kr, plain, aad);
    }
  }

  ghost predicate AllSettled(kr: Keyring, docs: seq<Doc>, fields: seq<string>) {
    forall i, f :: 0 <= i < |docs| && f in fields ==> Settled(kr, Get(docs[i], f))
  }

  lemma DocSettles(kr: Keyring, coll: string, doc: Doc, fields: seq<string>)
    requires Usable(kr) && kr.active != ""
    ensures NoFailure(kr, coll, doc, fields)
            <==> forall f :: f in fields ==> Settled(kr, Get(Rotated(kr, coll, doc, fields), f))
  {
    hide Decide, Rotated, Settled;
    forall f | f in fields
      ensures Settled(kr, Get(Rotated(kr, coll, doc, fields), f)) <==> !Decide(kr, coll, doc, f).Failed?
    {
      RotatedCell(kr, coll, doc, fields, f);
      DecideSettles(kr, coll, doc, f);
    }
  }

  /** A real rotation reports no failure exactly when it leaves no listed text under another key. */
  lemma NoFailureMeansSettled(kr: Keyring, coll: string, docs: seq<Doc>, fields: seq<string>)
    requires Usable(kr) && kr.active != ""
    ensures Tally(kr, coll, docs, fields).failed == 0 <==> AllSettled(kr, RotatedAll(kr, coll, docs, fields), fields)
  {
    hide NoFailure, Rotated, Settled, Tally;
    TallyFailed(kr, coll, docs, fields);
    forall i | 0 <= i < |docs|
      ensures NoFailure(kr, coll, docs[i], fields)
              <==> forall f :: f in fields ==> Settled(kr, Get(RotatedAll(kr, coll, docs, fields)[i], f))
    {
      DocSettles(kr, coll, docs[i], fields);
    }
  }

  // ----- a second rotation -----

  lemma {:induction false} SettledFields(kr: Keyring, coll: string, doc: Doc, fields: seq<string>, r: Report)
    requires Usable(kr) && kr.active != "" && forall f :: f in fields ==> Settled(kr, Get(doc, f))
    ensures NoteFields(kr, coll, doc, fields, r).failed == r.failed
            && NoteFields(kr, coll, doc, fields, r).migrated == r.migrated
  {
    hide Decide, Settled;
    if fields != [] {
      var n := |fields| - 1;
      SettledFields(kr, coll, doc, fields[..n], r);
      DecideSettles(kr, coll, doc, fields[n]);
    }
  }

  lemma SettledDoc(kr: Keyring, coll: string, doc: Doc, fields: seq<string>)
    requires Usable(kr) && kr.active != "" && forall f :: f in fields ==> Settled(kr, Get(doc, f))
    ensures Updates(kr, coll, doc, fields) == map[] && Rotated(kr, coll, doc, fields) == doc
  {
    hide Decide, Settled;
    forall f | f in fields
      ensures !Decide(kr, coll, doc, f).Reseal?
    {
      DecideSettles(kr, coll, doc, f);
    }
  }

  lemma {:induction false} SettledTally(kr: Keyring, coll: string, docs: seq<Doc>, fields: seq<string>)
    requires Usable(kr) && kr.active != "" && AllSettled(kr, docs, fields)
    ensures var r := Tally(kr, coll, docs, fields); r.rotated == 0 && r.failed == 0 && r.migrated == 0
  {
    hide Settled, Updates, NoteFields;
    if docs != [] {
      var n := |docs| - 1;
      assert forall i :: 0 <= i < n ==> docs[..n][i] == docs[i];
      SettledTally(kr, coll, docs[..n], fields);
      var r := Tally(kr, coll, docs[..n], fields);
      SettledDoc(kr, coll, docs[n], fields);
      SettledFields(kr, coll, docs[n], fields, r.(scanned := r.scanned + 1));
      FieldsFailed(kr, coll, docs[n], fields, r.(scanned := r.scanned + 1));
    }
  }

  /** After a real rotation without failures, a second one has nothing to do. */
  lemma SecondRotationIsIdle(kr: Keyring, coll: string, docs: seq<Doc>, fields: seq<string>)
    requires Usable(kr) && kr.active != "" && Tally(kr, coll, docs, fields).failed == 0
    ensures var after := RotatedAll(kr, coll, docs, fields);
            && RotatedAll(kr, coll, after, fields) == after
            && var r := Tally(kr, coll, after, fields);
               r.rotated == 0 && r.failed == 0 && r.migrated == 0
  {
    hide Settled, Tally, Rotated;
    var after := RotatedAll(kr, coll, docs, fields);
    NoFailureMeansSettled(kr, coll, docs, fields);
    SettledTally(kr, coll, after, fields);
    forall i | 0 <= i < |after|
      ensures Rotated(kr, coll, after[i], fields) == after[i]
    {
      SettledDoc(kr, coll, after[i], fields);
    }
  }

  // ----- what the counters count -----

  /** The positions of the listed fields with an outcome of a kind. */
  ghost function Positions(kr: Keyring, coll: string, doc: Doc, fields: seq<string>, kind: Outcome -> bool): set<nat>
    requires Usable(kr)
  {
    set j: nat | j < |fields| && kind(Decide(kr, coll, doc, fields[j]))
  }

  const IS_CURRENT: Outcome -> bool := (o: Outcome) => o.Current?
  const IS_SKIPPED: Outcome -> bool := (o: Outcome) => o.Skipped?
  const IS_FAILED: Outcome -> bool := (o: Outcome) => o.Failed?
  const IS_MIGRATED: Outcome -> bool := (o: Outcome) => o.Reseal? && o.migrated

  lemma PositionsGrow(kr: Keyring, coll: string, doc: Doc, fields: seq<string>, kind: Outcome -> bool)
    requires Usable(kr) && fields != []
    ensures var n := |fields| - 1;
            |Positions(kr, coll, doc, fields, kind)|
            == |Positions(kr, coll, doc, fields[..n], kind)| + if kind(Decide(kr, coll, doc, fields[n])) then 1 else 0
  {
    hide Decide;
    var n := |fields| - 1;
    var before := Positions(kr, coll, doc, fields[..n], kind);
    assert Positions(kr, coll, doc, fields, kind)
        == before + if kind(Decide(kr, coll, doc, fields[n])) then {n} else {};
  }

  /** Each counter adds exactly the fields of its kind. */
  lemma {:induction false} FieldCounts(kr: Keyring, coll: string, doc: Doc, fields: seq<string>, r: Report)
    requires Usable(kr)
    ensures var after := NoteFields(kr, coll, doc, fields, r);
            && after.current == r.current + |Positions(kr, coll, doc, fields, IS_CURRENT)|
            && after.skipped == r.skipped + |Positions(kr, coll, doc, fields, IS_SKIPPED)|
            && after.failed == r.failed + |Positions(kr, coll, doc, fields, IS_FAILED)|
            && after.migrated == r.migrated + |Positions(kr, coll, doc, fields, IS_MIGRATED)|
  {
    hide Decide, Positions;
    if fields == [] {
      NoPositions(kr, coll, doc);
    } else {
      FieldCounts(kr, coll, doc, fields[..|fields| - 1], r);
      PositionsGrow(kr, coll, doc, fields, IS_CURRENT);
      PositionsGrow(kr, coll, doc, fields, IS_SKIPPED);
      PositionsGrow(kr, coll, doc, fields, IS_FAILED);
      PositionsGrow(kr, coll, doc, fields, IS_MIGRATED);
    }
  }

  lemma NoPositions(kr: Keyring, coll: string, doc: Doc)
    requires Usable(kr)
    ensures forall kind :: Positions(kr, coll, doc, [], kind) == {}
  {
  }

  /** The documents a real rotation changes. */
  ghost function Changed(kr: Keyring, coll: string, docs: seq<Doc>, fields: seq<string>): set<nat>
    requires Usable(kr)
  {
    set i: nat | i < |docs| && Rotated(kr, coll, docs[i], fields) != docs[i]
  }

  /** A document with an update does change: what was not settled is settled now. */
  lemma UpdatesChange(kr: Keyring, coll: string, doc: Doc, fields: seq<string>)
    requires Usable(kr) && kr.active != ""
    ensures Updates(kr, coll, doc, fields) == map[] <==> Rotated(kr, coll, doc, fields) == doc
  {
    hide Decide, Settled;
    var updates := Updates(kr, coll, doc, fields);
    if updates != map[] {
      var f :| f in updates;
      DecideSettles(kr, coll, doc, f);
      RotatedCell(kr, coll, doc, fields, f);
    }
  }

  /** The rotated counter of the report is the number of documents a real rotation changes. */
  lemma {:induction false} RotatedCountsChanges(kr: Keyring, coll: string, docs: seq<Doc>, fields: seq<string>)
    requires Usable(kr) && kr.active != ""
    ensures Tally(kr, coll, docs, fields).rotated == |Changed(kr, coll, docs, fields)|
  {
    hide Updates, Rotated, NoteFields;
    if docs != [] {
      var n := |docs| - 1;
      RotatedCountsChanges(kr, coll, docs[..n], fields);
      var r := Tally(kr, coll, docs[..n], fields);
      FieldsFailed(kr, coll, docs[n], fields, r.(scanned := r.scanned + 1));
      UpdatesChange(kr, coll, docs[n], fields);
      var before := Changed(kr, coll, docs[..n], fields);
      assert Changed(kr, coll, docs, fields)
          == before + if Rotated(kr, coll, docs[n], fields) != docs[n] then {n} else {};
    }
  }

  // ----- what the stored values say -----

  /** What a reader of a field gets: nothing stored (or only blanks), an error, or words. */
  datatype Reading = Nothing | Unreadable | Words(words: string)

  function AsWords(p: Option<string>): Reading {
    match p
    case None => Unreadable
    case Some(plain) => if Strip(plain) == "" then Nothing else Words(Strip(plain))
  }

  function ReadCell(kr: Keyring, coll: string, subject: Subject, field: string, c: Cell): Reading {
    match c
    case Null => Nothing
    case NotText(_) => Nothing
    case Str(text) =>
      if LooksEncrypted(text) then AsWords(DecryptRotationValue(kr, text, coll, subject, field))
      else AsWords(Some(OwnText(text)))
  }

  function Read(kr: Keyring, coll: string, doc: Doc, field: string): Reading {
    ReadCell(kr, coll, SubjectOf(doc), field, Get(doc, field))
  }

  lemma CanonicalFirst(coll: string, subject: Subject, field: string)
    ensures CanonicalAad(coll, subject, field) in AadCandidates(coll, subject, field)
  {
    UniqueKeeps(Patterns(coll, subject, field));
    assert Patterns(coll, subject, field)[0] == CanonicalAad(coll, subject, field);
  }

  /** A freshly sealed text reads back under the active key alone. */
  lemma SealedReadsBack(kr: Keyring, plain: string, coll: string, subject: Subject, field: string)
    requires Usable(kr)
    ensures ReadCell(OnlyActive(kr), coll, subject, field,
                     Str(EncryptText(kr, plain, CanonicalAad(coll, subject, field))))
            == AsWords(Some(plain))
  {
    hide AadCandidates, FirstOpening, Strip;
    StripIdempotent(plain);
    var aad := CanonicalAad(coll, subject, field);
    var t := EncryptText(kr, plain, aad);
    BlankStaysBlank();
    if Strip(plain) != "" {
      CanonicalFirst(coll, subject, field);
      EncryptThenDecrypt(kr, plain, aad);
      FirstOpeningIs(OnlyActive(kr), t, AadCandidates(coll, subject, field));
    }
  }

  lemma BlankStaysBlank()
    ensures Strip("") == ""
  {
  }

  /** An envelope under the active key id does not depend on the retired keys. */
  lemma {:induction false} ActiveNeedsNoOther(kr: Keyring, t: Text, aads: seq<Aad>)
    requires Usable(kr) && EnvelopeKeyId(t) == Some(kr.active)
    ensures FirstOpening(OnlyActive(kr), t, aads) == FirstOpening(kr, t, aads)
  {
    if aads != [] {
      ActiveNeedsNoOther(kr, t, aads[1..]);
      assert DecryptText(OnlyActive(kr), t, aads[0]) == DecryptText(kr, t, aads[0]);
    }
  }

  /** One field that did not fail reads as before under the active key alone, as long as the document
      still prints the same subject. */
  lemma FieldReadsAsBefore(kr: Keyring, coll: string, doc: Doc, fields: seq<string>, f: string)
    requires Usable(kr) && f in fields && !Decide(kr, coll, doc, f).Failed?
    requires SubjectOf(Rotated(kr, coll, doc, fields)) == SubjectOf(doc)
    ensures Read(OnlyActive(kr), coll, Rotated(kr, coll, doc, fields), f) == Read(kr, coll, doc, f)
  {
    hide Rotated, SubjectOf, AadCandidates, FirstOpening, Strip, EncryptText, CanonicalAad;
    RotatedCell(kr, coll, doc, fields, f);
    var subject := SubjectOf(doc);
    match Get(doc, f)
    case Null =>
    case NotText(_) =>
    case Str(t) =>
      match Decide(kr, coll, doc, f)
      case Blank =>
      case Current => ActiveNeedsNoOther(kr, t, AadCandidates(coll, subject, f));
      case Reseal(_, migrated) =>
        if migrated {
          SealedReadsBack(kr, OwnText(t), coll, subject, f);
        } else {
          SealedReadsBack(kr, DecryptRotationValue(kr, t, coll, subject, f).value, coll, subject, f);
        }
  }

  // ----- when the subject survives -----

  /** The rotation rewrites the very member that names the document's subject. */
  ghost predicate RewritesSubject(kr: Keyring, coll: string, doc: Doc, fields: seq<string>)
    requires Usable(kr)
  {
    var d := Deciding(doc, SUBJECT_KEYS);
    d.Some? && d.value in fields && Decide(kr, coll, doc, d.value).Reseal?
  }

  lemma UnprintedIsNotRewritten(kr: Keyring, coll: string, doc: Doc, f: string)
    requires Usable(kr) && Printed(Get(doc, f)).None?
    ensures !Decide(kr, coll, doc, f).Reseal?
  {
    hide Strip, DecryptRotationValue, SubjectOf;
  }

  lemma {:induction false} SubjectStays(kr: Keyring, coll: string, doc: Doc, fields: seq<string>, keys: seq<string>)
    requires Usable(kr)
    requires var d := Deciding(doc, keys); !(d.Some? && d.value in fields && Decide(kr, coll, doc, d.value).Reseal?)
    ensures SubjectFrom(Rotated(kr, coll, doc, fields), keys) == SubjectFrom(doc, keys)
  {
    hide Decide, Rotated, Printed;
    if keys != [] {
      var k := keys[0];
      if Printed(Get(doc, k)).None? {
        UnprintedIsNotRewritten(kr, coll, doc, k);
        SubjectStays(kr, coll, doc, fields, keys[1..]);
      }
      OtherCells(kr, coll, doc, fields, k);
    }
  }

  /** Envelopes that say something: encryption never seals blanks, and an envelope's own text is an
      object in JSON, which is not blank. */
  predicate Speaks(t: Text) {
    match t
    case Plain(_) => true
    case Envelope(_, Box(_, _, plain)) => Strip(plain) != ""
    case Envelope(_, Broken) => true
    case Envelope(_, Untyped(raw)) => Strip(raw) != ""
    case Envelope(_, NoCipher(raw, _)) => Strip(raw) != ""
  }

  ghost predicate ProperlySealed(doc: Doc) {
    forall f :: f in doc && doc[f].Str? ==> Speaks(doc[f].text)
  }

  lemma {:induction false} SubjectFollowsRewrite(kr: Keyring, coll: string, doc: Doc, fields: seq<string>,
                                                 keys: seq<string>)
    requires Usable(kr)
    requires var d := Deciding(doc, keys);
             && d.Some? && d.value in fields && Decide(kr, coll, doc, d.value).Reseal?
             && Decide(kr, coll, doc, d.value).text.Envelope?
    ensures SubjectFrom(Rotated(kr, coll, doc, fields), keys)
            == Json(Decide(kr, coll, doc, Deciding(doc, keys).value).text)
  {
    hide Decide, Rotated, Strip;
    var k := keys[0];
    if Printed(Get(doc, k)).None? {
      UnprintedIsNotRewritten(kr, coll, doc, k);
      OtherCells(kr, coll, doc, fields, k);
      SubjectFollowsRewrite(kr, coll, doc, fields, keys[1..]);
    } else {
      RotatedCell(kr, coll, doc, fields, k);
    }
  }

  lemma {:induction false} DecidingPrints(doc: Doc, keys: seq<string>)
    requires Deciding(doc, keys).Some?
    ensures Printed(Get(doc, Deciding(doc, keys).value)) == Some(SubjectFrom(doc, keys))
  {
    if Printed(Get(doc, keys[0])).None? {
      DecidingPrints(doc, keys[1..]);
    }
  }

  /** A plaintext taken out of something that speaks is not blank. */
  lemma {:induction false} OpensToWords(kr: Keyring, t: Text, aads: seq<Aad>)
    requires LooksEncrypted(t) && Speaks(t)
    ensures FirstOpening(kr, t, aads).Some? ==> Strip(FirstOpening(kr, t, aads).value) != ""
  {
    hide Strip;
    if aads != [] {
      OpensToWords(kr, t, aads[1..]);
      if t.body.Untyped? {
        StripIdempotent(t.body.raw);
      }
    }
  }

  lemma OwnWords(t: Text)
    requires !LooksEncrypted(t) && Speaks(t) && !IsBlank(t)
    ensures Strip(OwnText(t)) != ""
  {
    hide Strip;
    match t
    case Plain(chars) => StripIdempotent(chars);
    case Envelope(_, NoCipher(raw, _)) => StripIdempotent(raw);
  }

  /** What a rewritten cell was, and what it becomes. */
  lemma RewriteSeals(kr: Keyring, coll: string, doc: Doc, f: string)
    requires Usable(kr) && kr.active != "" && ProperlySealed(doc) && Decide(kr, coll, doc, f).Reseal?
    ensures var t := Decide(kr, coll, doc, f).text;
            && t.Envelope? && t.kid == Named(kr.active) && t.body.Box?
            && t.body.aad == CanonicalAad(coll, SubjectOf(doc), f)
            && Get(doc, f) != Str(t)
    ensures Read(kr, coll, doc, f).Words?
  {
    hide Strip, SubjectOf, AadCandidates, FirstOpening, CanonicalAad;
    var t := Get(doc, f).text;
    if LooksEncrypted(t) {
      OpensToWords(kr, t, AadCandidates(coll, SubjectOf(doc), f));
      SameIsCurrent(kr, t);
    } else {
      OwnWords(t);
    }
  }

  lemma SameIsCurrent(kr: Keyring, t: Text)
    ensures t.Envelope? && t.kid == Named(kr.active) && kr.active != "" ==> EnvelopeKeyId(t) == Some(kr.active)
  {
  }

  lemma RewrittenSubjectIsLost(kr: Keyring, coll: string, doc: Doc, fields: seq<string>)
    requires Usable(kr) && kr.active != "" && ProperlySealed(doc) && RewritesSubject(kr, coll, doc, fields)
    ensures var d := Deciding(doc, SUBJECT_KEYS).value;
            && d in fields && Read(kr, coll, doc, d).Words?
            && Read(OnlyActive(kr), coll, Rotated(kr, coll, doc, fields), d) == Unreadable
            && Read(kr, coll, Rotated(kr, coll, doc, fields), d) == Unreadable
  {
    var d := Deciding(doc, SUBJECT_KEYS).value;
    var t := Decide(kr, coll, doc, d).text;
    RewriteSeals(kr, coll, doc, d);
    SubjectFollowsRewrite(kr, coll, doc, fields, SUBJECT_KEYS);
    DecidingPrints(doc, SUBJECT_KEYS);
    RotatedCell(kr, coll, doc, fields, d);
    hide Decide, Rotated, Patterns, DecryptRotationValue, CanonicalAad, Strip, SubjectFrom, Deciding;
    OpensKnownPatterns(OnlyActive(kr), t.kid, t.body.key, t.body.aad, t.body.plain, coll, Json(t), d);
    OpensKnownPatterns(kr, t.kid, t.body.key, t.body.aad, t.body.plain, coll, Json(t), d);
  }

  /** After a rotation without failures, a document's fields all read as before under the active key
      alone, exactly when the rotation did not rewrite the member naming the document's subject. */
  lemma ReadsAsBeforeExactly(kr: Keyring, coll: string, doc: Doc, fields: seq<string>)
    requires Usable(kr) && kr.active != "" && ProperlySealed(doc) && NoFailure(kr, coll, doc, fields)
    ensures (forall f :: f in fields ==>
               Read(OnlyActive(kr), coll, Rotated(kr, coll, doc, fields), f) == Read(kr, coll, doc, f))
            <==> !RewritesSubject(kr, coll, doc, fields)
  {
    hide Read, Rotated, Decide, OnlyActive, SubjectFrom, Deciding;
    if RewritesSubject(kr, coll, doc, fields) {
      RewrittenSubjectIsLost(kr, coll, doc, fields);
    } else {
      SubjectStays(kr, coll, doc, fields, SUBJECT_KEYS);
      forall f | f in fields
        ensures Read(OnlyActive(kr), coll, Rotated(kr, coll, doc, fields), f) == Read(kr, coll, doc, f)
      {
        FieldReadsAsBefore(kr, coll, doc, fields, f);
      }
    }
  }

  /** The whole promise: after a real rotation without failures every listed text is settled, and in
      every document whose subject is not itself rewritten it reads as before with the retired keys
      dropped. */
  lemma OldKeysCanBeDropped(kr: Keyring, coll: string, docs: seq<Doc>, fields: seq<string>, i: nat, f: string)
    requires Usable(kr) && kr.active != "" && Tally(kr, coll, docs, fields).failed == 0
    requires i < |docs| && f in fields
    ensures Settled(kr, Get(RotatedAll(kr, coll, docs, fields)[i], f))
    ensures !RewritesSubject(kr, coll, docs[i], fields) ==>
              Read(OnlyActive(kr), coll, RotatedAll(kr, coll, docs, fields)[i], f) == Read(kr, coll, docs[i], f)
  {
    hide Read, Rotated, Decide, OnlyActive, SubjectFrom, Deciding, Tally, Settled;
    NoFailureMeansSettled(kr, coll, docs, fields);
    TallyFailed(kr, coll, docs, fields);
    if !RewritesSubject(kr, coll, docs[i], fields) {
      SubjectStays(kr, coll, docs[i], fields, SUBJECT_KEYS);
      FieldReadsAsBefore(kr, coll, docs[i], fields, f);
    }
  }

  /** A value under the active key id is passed over whatever it was sealed for and whatever it says:
      the report cannot tell a readable one from a broken one. */
  lemma CurrentIsNotRechecked(kr: Keyring, coll: string, doc: Doc, fields: seq<string>, f: string, body: Body)
    requires Usable(kr) && kr.active != "" && f in fields && f !in SUBJECT_KEYS
    requires Get(doc, f).Str? && EnvelopeKeyId(Get(doc, f).text) == Some(kr.active) && LooksEncrypted(Get(doc, f).text)
    requires !body.NoCipher?
    ensures var other := doc[f := Str(Envelope(Named(kr.active), body))];
            && Decide(kr, coll, other, f) == Current == Decide(kr, coll, doc, f)
            && Get(Rotated(kr, coll, other, fields), f) == Get(other, f)
  {
    hide DecryptRotationValue, SubjectOf;
    RotatedCell(kr, coll, doc[f := Str(Envelope(Named(kr.active), body))], fields, f);
  }

  // ----- the job -----

  class Collection {
    var docs: seq<Doc>

    constructor (docs: seq<Doc>)
      ensures this.docs == docs
    {
      this.docs := docs;
    }

    /** One rotation job. A dry run reports what a real run would and writes nothing. The member
        holding the document's own key cannot be rewritten and is not a field to list. */
    method RotateCollectionEncryption(kr: Keyring, coll: string, fields: seq<string>, dryRun: bool) returns (r: Report)
      requires Usable(kr) && "_id" !in fields
      modifies this
      ensures docs == if dryRun then old(docs) else RotatedAll(kr, coll, old(docs), fields)
      ensures r == Tally(kr, coll, old(docs), fields)
    {
      hide Decide, NoteFields, Rotated, Updates;
      r := ZERO;
      ghost var was := docs;
      for i := 0 to |docs|
        invariant |docs| == |was| && r == Tally(kr, coll, was[..i], fields)
        invariant forall k :: i <= k < |was| ==> docs[k] == was[k]
        invariant forall k :: 0 <= k < i ==> docs[k] == if dryRun then was[k] else Rotated(kr, coll, was[k], fields)
      {
        ghost var seen := r;
        r := r.(scanned := r.scanned + 1);
        var updates;
        updates, r := VisitFields(kr, coll, docs[i], fields, r);
        NextDoc(kr, coll, was, fields, i);
        if updates != map[] {
          r := r.(rotated := r.rotated + 1);
          if !dryRun {
            docs := docs[i := docs[i] + updates];
          }
        }
        RotatedIs(kr, coll, was[i], fields);
      }
      assert was[..|was|] == was;
    }

    /** The inner loop: one document's fields. */
    static method VisitFields(kr: Keyring, coll: string, doc: Doc, fields: seq<string>, before: Report)
      returns (updates: map<string, Cell>, r: Report)
      requires Usable(kr)
      ensures updates == Updates(kr, coll, doc, fields) && r == NoteFields(kr, coll, doc, fields, before)
    {
      hide Decide, DecryptRotationValue, SubjectOf, CanonicalAad, EncryptText, Strip;
      updates, r := map[], before;
      for j := 0 to |fields|
        invariant updates == Updates(kr, coll, doc, fields[..j]) && r == NoteFields(kr, coll, doc, fields[..j], before)
      {
        var f := fields[j];
        NextField(kr, coll, doc, fields, j, before);
        var o := VisitField(kr, coll, doc, f);
        match o {
          case Missing =>
          case Blank =>
          case Skipped => r := r.(skipped := r.skipped + 1);
          case Current => r := r.(current := r.current + 1);
          case Failed => r := r.(failed := r.failed + 1);
          case Reseal(text, migrated) =>
            if migrated {
              r := r.(migrated := r.migrated + 1);
            }
            updates := updates[f := Str(text)];
        }
      }
      assert fields[..|fields|] == fields;
    }

    /** The candidates are tried in turn until one opens the value. */
    static method VisitField(kr: Keyring, coll: string, doc: Doc, field: string) returns (o: Outcome)
      requires Usable(kr)
      ensures o == Decide(kr, coll, doc, field)
    {
      hide AadCandidates, SubjectOf, CanonicalAad, EncryptText, Strip, DecryptText;
      match Get(doc, field) {
        case Null => return Missing;
        case NotText(_) => return Skipped;
        case Str(text) =>
          if IsBlank(text) {
            return Blank;
          }
          var canonical := CanonicalAad(coll, SubjectOf(doc), field);
          if !LooksEncrypted(text) {
            return Reseal(EncryptText(kr, OwnText(text), canonical), true);
          }
          if EnvelopeKeyId(text) == Some(kr.active) {
            return Current;
          }
          var candidates := AadCandidates(coll, SubjectOf(doc), field);
          for k := 0 to |candidates|
            invariant FirstOpening(kr, text, candidates) == FirstOpening(kr, text, candidates[k..])
          {
            var plain := DecryptText(kr, text, candidates[k]);
            assert candidates[k..][1..] == candidates[k + 1..];
            if plain.Some? {
              return Reseal(EncryptText(kr, plain.value, canonical), false);
            }
          }
          return Failed;
      }
    }
  }

  lemma RotatedIs(kr: Keyring, coll: string, doc: Doc, fields: seq<string>)
    requires Usable(kr)
    ensures Rotated(kr, coll, doc, fields) == doc + Updates(kr, coll, doc, fields)
    ensures Updates(kr, coll, doc, fields) == map[] ==> Rotated(kr, coll, doc, fields) == doc
  {
  }

  lemma NextDoc(kr: Keyring, coll: string, docs: seq<Doc>, fields: seq<string>, i: nat)
    requires Usable(kr) && i < |docs|
    ensures Tally(kr, coll, docs[..i + 1], fields)
            == NoteDoc(kr, coll, docs[i], fields, Tally(kr, coll, docs[..i], fields))
  {
    hide NoteDoc;
    assert docs[..i + 1][..i] == docs[..i];
  }

  lemma NextField(kr: Keyring, coll: string, doc: Doc, fields: seq<string>, j: nat, r: Report)
    requires Usable(kr) && j < |fields|
    ensures NoteFields(kr, coll, doc, fields[..j + 1], r)
            == Note(NoteFields(kr, coll, doc, fields[..j], r), Decide(kr, coll, doc, fields[j]))
    ensures var o := Decide(kr, coll, doc, fields[j]);
            var before := Updates(kr, coll, doc, fields[..j]);
            Updates(kr, coll, doc, fields[..j + 1]) == if o.Reseal? then before[fields[j] := Str(o.text)] else before
  {
    hide Decide, Note;
    assert fields[..j + 1][..j] == fields[..j];
    assert fields[..j + 1] == fields[..j] + [fields[j]];
  }
}
