/** Semester promotion and the allocation of students to sections. */
module AcademicPolicy {
  import opened Basics

  // ----- half-year terms -----

  datatype Date = Date(year: int, month: int, day: int)

  predicate NotAfter(a: Date, b: Date) {
    a.year < b.year || (a.year == b.year && (a.month < b.month || (a.month == b.month && a.day <= b.day)))
  }

  function TermStart(d: Date): Date {
    Date(d.year, if d.month <= 6 then 1 else 7, 1)
  }

  /** The first months are 1 and 7, so the division by 6 is exact. */
  function TermsElapsed(from: Date, to: Date): nat {
    var a, b := TermStart(from), TermStart(to);
    Max(0, (b.year - a.year) * 2 + (b.month - a.month) / 6)
  }

  /** Terms add up over consecutive days, and none has elapsed exactly between days of one term. */
  lemma TermsAddUp(a: Date, b: Date, c: Date)
    requires NotAfter(a, b) && NotAfter(b, c)
    ensures TermsElapsed(a, c) == TermsElapsed(a, b) + TermsElapsed(b, c)
    ensures TermsElapsed(a, b) == 0 <==> TermStart(a) == TermStart(b)
    ensures TermsElapsed(b, a) == 0
  {
    TermsAre(a, b);
    TermsAre(b, c);
    TermsAre(a, c);
    TermsAre(b, a);
    hide TermsElapsed;
  }

  function HalfYears(d: Date): int {
    2 * d.year + if d.month <= 6 then 0 else 1
  }

  lemma TermsAre(a: Date, b: Date)
    ensures TermsElapsed(a, b) == Max(0, HalfYears(b) - HalfYears(a))
  {
  }

  /** A single term has elapsed exactly from one half of a year to the next half. */
  lemma NextTerm(a: Date, b: Date)
    ensures TermsElapsed(a, b) == 1
            <==> if a.month <= 6 then b.year == a.year && b.month > 6 else b.year == a.year + 1 && b.month <= 6
  {
    TermsAre(a, b);
  }

  // ----- promotion -----

  const LAST_SEMESTER := 12

  /** A recorded semester of 0 counts as the first. */
  function Effective(semester: int): int {
    if semester == 0 then 1 else semester
  }

  function PromoteBy(semester: int, elapsed: nat): int {
    if elapsed == 0 then semester else Min(LAST_SEMESTER, Effective(semester) + elapsed)
  }

  /** Every term that has elapsed brings a student one semester further, up to the twelfth. */
  lemma OneSemesterPerTerm(semester: int, elapsed: nat)
    requires 1 <= semester <= 12
    ensures PromoteBy(semester, 0) == semester
    ensures PromoteBy(semester, elapsed + 1)
            == if PromoteBy(semester, elapsed) < 12 then PromoteBy(semester, elapsed) + 1 else 12
    ensures PromoteBy(0, elapsed + 1) == PromoteBy(1, elapsed + 1)
  {
  }

  /** Promotion in two steps agrees with promotion in one, cap included, except from a negative
      semester that the first step brings to exactly 0. */
  lemma PromotionPathIndependent(semester: int, e: nat, g: nat)
    ensures PromoteBy(PromoteBy(semester, e), g) == PromoteBy(semester, e + g)
            <==> !(semester < 0 && semester + e == 0 && 0 < g < 12)
  {
  }

  // ----- decimal suffixes -----

  function Digit(d: nat): char
    requires d < 10
  {
    '0' + d as char
  }

  function Decimal(n: nat): string {
    if n < 10 then [Digit(n)] else Decimal(n / 10) + [Digit(n % 10)]
  }

  function IntText(n: int): string {
    if n < 0 then "-" + Decimal(-n) else Decimal(n)
  }

  function TwoDigits(n: nat): string {
    if n < 10 then "0" + Decimal(n) else Decimal(n)
  }

  /** What a text of decimal digits says. */
  function ValueOf(s: string): int {
    if s == [] then 0 else 10 * ValueOf(s[..|s| - 1]) + (s[|s| - 1] as int - '0' as int)
  }

  lemma {:induction false} DecimalSays(n: nat)
    ensures ValueOf(Decimal(n)) == n
  {
    if n >= 10 {
      DecimalSays(n / 10);
      assert Decimal(n)[..|Decimal(n)| - 1] == Decimal(n / 10);
    } else {
      assert Decimal(n)[..0] == [];
    }
  }

  predicate LexBefore(a: string, b: string) {
    if a == [] then b != []
    else b != [] && (a[0] < b[0] || (a[0] == b[0] && LexBefore(a[1..], b[1..])))
  }

  /** Shorter texts first, and texts of one length by their characters. */
  predicate Before(a: string, b: string) {
    |a| < |b| || (|a| == |b| && LexBefore(a, b))
  }

  lemma {:induction false} LexTotal(a: string, b: string)
    ensures a == b || LexBefore(a, b) || LexBefore(b, a)
  {
    if a != [] && b != [] && a[0] == b[0] {
      LexTotal(a[1..], b[1..]);
      assert a == [a[0]] + a[1..] && b == [b[0]] + b[1..];
    }
  }

  lemma {:induction false} LexTransitive(a: string, b: string, c: string)
    requires LexBefore(a, b) && LexBefore(b, c)
    ensures LexBefore(a, c)
  {
    if a != [] && a[0] == b[0] == c[0] {
      LexTransitive(a[1..], b[1..], c[1..]);
    }
  }

  lemma {:induction false} LexIrreflexive(a: string)
    ensures !LexBefore(a, a)
  {
    if a != [] {
      LexIrreflexive(a[1..]);
    }
  }

  lemma BeforeTotal(a: string, b: string)
    ensures a == b || Before(a, b) || Before(b, a)
    ensures !(Before(a, b) && Before(b, a))
  {
    LexTotal(a, b);
    LexIrreflexive(a);
    if LexBefore(a, b) && LexBefore(b, a) {
      LexTransitive(a, b, a);
    }
  }

  lemma BeforeTransitive(a: string, b: string, c: string)
    requires Before(a, b) && Before(b, c)
    ensures Before(a, c)
  {
    if LexBefore(a, b) && LexBefore(b, c) {
      LexTransitive(a, b, c);
    }
  }

  lemma {:induction false} LexAppend(a: string, b: string, c: char, d: char)
    requires |a| == |b| && (LexBefore(a, b) || (a == b && c < d))
    ensures LexBefore(a + [c], b + [d])
  {
    if a != [] {
      assert (a + [c])[1..] == a[1..] + [c] && (b + [d])[1..] == b[1..] + [d];
      if a[0] == b[0] {
        LexAppend(a[1..], b[1..], c, d);
      }
    }
  }

  lemma {:induction false} LexPrefix(p: string, a: string, b: string)
    requires LexBefore(a, b)
    ensures LexBefore(p + a, p + b)
  {
    if p == [] {
      assert p + a == a && p + b == b;
    } else {
      assert (p + a)[1..] == p[1..] + a && (p + b)[1..] == p[1..] + b;
      LexPrefix(p[1..], a, b);
    }
  }

  /** Length and then text is the numeric order. */
  lemma {:induction false} DecimalOrder(m: nat, n: nat)
    requires m < n
    ensures Before(Decimal(m), Decimal(n))
  {
    if n >= 10 {
      if m >= 10 {
        if m / 10 == n / 10 {
          LexAppend(Decimal(m / 10), Decimal(n / 10), Digit(m % 10), Digit(n % 10));
        } else {
          DecimalOrder(m / 10, n / 10);
          if |Decimal(m / 10)| == |Decimal(n / 10)| {
            LexAppend(Decimal(m / 10), Decimal(n / 10), Digit(m % 10), Digit(n % 10));
          }
        }
      } else {
        NotEmpty(n / 10);
      }
    }
  }

  lemma NotEmpty(n: nat)
    ensures Decimal(n) != ""
  {
  }

  // ----- section names -----

  const CAPACITY := 60

  function SectionForBucket(base: string, bucket: int): string {
    if bucket <= 0 then base else base + Decimal(bucket + 1)
  }

  /** Names of later buckets come later in the order in which sections are filled. */
  lemma BucketOrder(base: string, i: nat, j: nat)
    requires i < j
    ensures Before(SectionForBucket(base, i), SectionForBucket(base, j))
  {
    NotEmpty(j + 1);
    if i > 0 {
      DecimalOrder(i + 1, j + 1);
      if |Decimal(i + 1)| == |Decimal(j + 1)| {
        LexPrefix(base, Decimal(i + 1), Decimal(j + 1));
      }
    }
  }

  lemma BucketInjective(base: string, i: nat, j: nat)
    requires SectionForBucket(base, i) == SectionForBucket(base, j)
    ensures i == j
  {
    BeforeTotal(SectionForBucket(base, i), SectionForBucket(base, j));
    if i < j {
      BucketOrder(base, i, j);
    } else if j < i {
      BucketOrder(base, j, i);
    }
  }

  function UpperChar(c: char): char {
    if 'a' <= c <= 'z' then c - 'a' + 'A' else c
  }

  /** Upper case without any white space. */
  function Normalize(s: string): string {
    if s == [] then [] else Normalize(s[..|s| - 1]) + if IsSpace(s[|s| - 1]) then [] else [UpperChar(s[|s| - 1])]
  }

  predicate AllDigits(s: string) {
    forall i :: 0 <= i < |s| ==> '0' <= s[i] <= '9'
  }

  predicate SectionMatchesPolicyBase(section: Option<string>, base: string) {
    section.Some? &&
    var name, stem := Normalize(section.value), Normalize(base);
    && name != "" && stem != ""
    && (name == stem
        || (&& |name| > |stem| && name[..|stem|] == stem
            && '2' <= name[|stem|] <= '9' && AllDigits(name[|stem|..])))
  }

  /** Which names the policy recognizes, for any name: the base itself, or the base followed by digits of
      which the first is not 0 or 1. */
  lemma RecognizedExactly(section: string, base: string)
    requires Normalize(base) != ""
    ensures SectionMatchesPolicyBase(Some(section), base)
            <==> exists rest :: Normalize(section) == Normalize(base) + rest && AllDigits(rest)
                                && (rest == "" || rest[0] >= '2')
    ensures !SectionMatchesPolicyBase(None, base)
  {
    hide Normalize;
    var name, stem := Normalize(section), Normalize(base);
    if SectionMatchesPolicyBase(Some(section), base) {
      var rest := name[|stem|..];
      assert name == stem + rest && AllDigits(rest) && (rest == "" || rest[0] == name[|stem|]);
    }
    if rest :| name == stem + rest && AllDigits(rest) && (rest == "" || rest[0] >= '2') {
      assert name[..|stem|] == stem && name[|stem|..] == rest;
      assert rest != "" ==> name[|stem|] == rest[0];
    }
  }

  /** Normalizing keeps what is not white space, in upper case, in order. */
  lemma NormalizeExactly(a: string, c: char, b: string)
    ensures Normalize(a + [c] + b) == Normalize(a) + Normalize([c]) + Normalize(b)
    ensures Normalize([c]) == if c == ' ' || '\t' <= c <= '\r' then ""
                              else if 'a' <= c <= 'z' then [c - 'a' + 'A'] else [c]
  {
    NormalizeChar(c);
    hide Normalize;
    NormalizeConcat(a, [c]);
    NormalizeConcat(a + [c], b);
  }

  lemma NormalizeChar(c: char)
    ensures Normalize([c]) == if IsSpace(c) then "" else [UpperChar(c)]
  {
    assert [c][..0] == "" && Normalize("") == "";
  }

  lemma {:induction false} NormalizeConcat(a: string, b: string)
    ensures Normalize(a + b) == Normalize(a) + Normalize(b)
  {
    if b == [] {
      assert a + b == a;
    } else {
      var n := |b| - 1;
      assert (a + b)[..|a + b| - 1] == a + b[..n];
      NormalizeConcat(a, b[..n]);
    }
  }

  function LeadingDigit(n: nat): (d: nat)
    ensures d < 10
  {
    if n < 10 then n else LeadingDigit(n / 10)
  }

  lemma {:induction false} DecimalDigits(n: nat)
    ensures AllDigits(Decimal(n)) && Decimal(n) != "" && Decimal(n)[0] == Digit(LeadingDigit(n))
  {
    if n >= 10 {
      DecimalDigits(n / 10);
      DigitIsDigit(n % 10);
    } else {
      DigitIsDigit(n);
    }
  }

  lemma DigitIsDigit(d: nat)
    requires d < 10
    ensures '0' <= Digit(d) <= '9' && (Digit(d) >= '2' <==> d >= 2)
  {
  }

  lemma {:induction false} NormalizeDigits(p: string, s: string)
    requires AllDigits(s)
    ensures Normalize(p + s) == Normalize(p) + s
  {
    if s == [] {
      assert p + s == p;
    } else {
      var n := |s| - 1;
      assert (p + s)[..|p + s| - 1] == p + s[..n];
      NormalizeDigits(p, s[..n]);
      assert s == s[..n] + [s[n]];
    }
  }

  /** The policy recognizes its own section names exactly when the number appended does not begin
      with a 1: buckets 0 to 8 pass, and buckets 9 to 18, from the suffix 10 on, do not. */
  lemma OwnNameRecognized(base: string, bucket: nat)
    requires Normalize(base) != ""
    ensures SectionMatchesPolicyBase(Some(SectionForBucket(base, bucket)), base)
            <==> bucket == 0 || LeadingDigit(bucket + 1) >= 2
    ensures bucket <= 8 ==> SectionMatchesPolicyBase(Some(SectionForBucket(base, bucket)), base)
    ensures 9 <= bucket <= 18 ==> !SectionMatchesPolicyBase(Some(SectionForBucket(base, bucket)), base)
  {
    hide Decimal;
    if bucket > 0 {
      var suffix := Decimal(bucket + 1);
      DecimalDigits(bucket + 1);
      NormalizeDigits(base, suffix);
      DigitIsDigit(LeadingDigit(bucket + 1));
      var name, stem := Normalize(base + suffix), Normalize(base);
      assert name[|stem|..] == suffix && name[..|stem|] == stem && name[|stem|] == suffix[0];
    }
  }

  // ----- students and the choice of a section -----

  /** `stream` is the short form of the student's department. */
  datatype Student = Student(semester: int, section: Option<string>, stream: string, updated: Option<Date>,
                             created: Option<Date>)

  type Students = map<nat, Student>

  function MarkerOf(s: Student, today: Date): Date {
    if s.updated.Some? then s.updated.value else if s.created.Some? then s.created.value else today
  }

  function ElapsedFor(s: Student, today: Date): nat {
    TermsElapsed(MarkerOf(s, today), today)
  }

  function Promoted(s: Student, today: Date): Student {
    s.(semester := PromoteBy(s.semester, ElapsedFor(s, today)))
  }

  function SectionBase(s: Student, today: Date): string {
    IntText(Effective(s.semester)) + TwoDigits(today.year % 100) + s.stream
  }

  /** The base of a section name: the semester (a recorded 0 counts as 1), the last two digits of the year,
      and the short form of the department. */
  lemma SectionBaseSays(s: Student, today: Date) returns (semester: string, year: string)
    requires s.semester >= 0
    ensures SectionBase(s, today) == semester + year + s.stream
    ensures ValueOf(semester) == (if s.semester == 0 then 1 else s.semester) && |year| == 2
    ensures ValueOf(year) == today.year % 100
  {
    semester, year := IntText(Effective(s.semester)), TwoDigits(today.year % 100);
    DecimalSays(Effective(s.semester));
    DecimalSays(today.year % 100);
    var y := today.year % 100;
    if y < 10 {
      assert year[..1] == "0" && "0"[..0] == "";
      assert ValueOf("0") == 0;
    } else {
      assert |Decimal(y / 10)| == 1;
    }
  }

  predicate StartsWith(s: string, base: string) {
    |base| <= |s| && s[..|base|] == base
  }

  predicate Placed(s: Student, semester: int, base: string) {
    s.semester == semester && s.section.Some? && s.section.value != "" && StartsWith(s.section.value, base)
  }

  /** The sections that start with the base, among the other students of the semester. */
  function OtherSections(students: Students, id: nat, semester: int, base: string): set<string> {
    set i | i in students && i != id && Placed(students[i], semester, base) :: students[i].section.value
  }

  function Members(students: Students, id: nat, semester: int, section: string): set<nat> {
    set i | i in students && i != id && students[i].semester == semester && students[i].section == Some(section)
  }

  /** How many other students of the semester sit in a section. */
  function Headcount(students: Students, id: nat, semester: int, section: string): nat {
    |Members(students, id, semester, section)|
  }

  predicate Vacant(students: Students, id: nat, semester: int, base: string, section: string) {
    section in OtherSections(students, id, semester, base) && Headcount(students, id, semester, section) < CAPACITY
  }

  /** The section a student is given: the first one with a free seat, or else the next bucket. */
  ghost predicate Picks(students: Students, id: nat, semester: int, base: string, section: string) {
    var others := OtherSections(students, id, semester, base);
    if others == {} then section == base
    else if exists s :: Vacant(students, id, semester, base, s) then
      && Vacant(students, id, semester, base, section)
      && forall s :: Vacant(students, id, semester, base, s) && s != section ==> Before(section, s)
    else section == SectionForBucket(base, |others|)
  }

  predicate Keeps(s: Student, today: Date, force: bool) {
    && s.section.Some? && s.section.value != "" && ElapsedFor(s, today) == 0 && !force
    && SectionMatchesPolicyBase(s.section, SectionBase(s, today))
  }

  /** One call of the assignment, and the section it answers. */
  ghost predicate Assigned(was: Students, id: nat, today: Date, force: bool, now: Students, answer: string) {
    && id in was
    && var s := Promoted(was[id], today);
       if Keeps(was[id], today, force) then now == was && Some(answer) == was[id].section
       else
         && Picks(was, id, s.semester, SectionBase(s, today), answer)
         && now == was[id := s.(section := Some(answer), updated := Some(today))]
  }

  /** A forced call, a call in a later term and a call for a student without a section always choose
      afresh and renew the marker. */
  lemma ChoosesAfresh(was: Students, id: nat, today: Date, force: bool, now: Students, answer: string)
    requires Assigned(was, id, today, force, now, answer)
    requires force || ElapsedFor(was[id], today) > 0 || was[id].section.None? || was[id].section.value == ""
    ensures id in now && now[id].section == Some(answer) && now[id].updated == Some(today)
    ensures Picks(was, id, now[id].semester, SectionBase(Promoted(was[id], today), today), answer)
    ensures now[id].semester == PromoteBy(was[id].semester, ElapsedFor(was[id], today))
  {
    hide Picks, SectionBase, SectionMatchesPolicyBase, TermsElapsed;
  }

  lemma PickIsUnique(students: Students, id: nat, semester: int, base: string, a: string, b: string)
    requires Picks(students, id, semester, base, a) && Picks(students, id, semester, base, b)
    ensures a == b
  {
    BeforeTotal(a, b);
  }

  /** One call has one outcome, although the choice is only described. */
  lemma AssignmentIsDetermined(was: Students, id: nat, today: Date, force: bool, now: Students, answer: string,
                               other: Students, otherAnswer: string)
    requires Assigned(was, id, today, force, now, answer) && Assigned(was, id, today, force, other, otherAnswer)
    ensures now == other && answer == otherAnswer
  {
    hide Picks, SectionBase, SectionMatchesPolicyBase, TermsElapsed;
    var s := Promoted(was[id], today);
    if !Keeps(was[id], today, force) {
      PickIsUnique(was, id, s.semester, SectionBase(s, today), answer, otherAnswer);
    }
  }

  /** The student's own row plays no part in the choice. */
  lemma OwnRowIrrelevant(students: Students, id: nat, s: Student, semester: int, base: string, section: string)
    ensures Headcount(students[id := s], id, semester, section) == Headcount(students, id, semester, section)
    ensures OtherSections(students[id := s], id, semester, base) == OtherSections(students, id, semester, base)
  {
    var now := students[id := s];
    assert Members(now, id, semester, section) == Members(students, id, semester, section);
    forall i | i in now && i != id
      ensures i in students && now[i] == students[i]
    {
    }
    forall x | x in OtherSections(students, id, semester, base)
      ensures x in OtherSections(now, id, semester, base)
    {
      var i :| i in students && i != id && Placed(students[i], semester, base) && students[i].section.value == x;
      assert now[i] == students[i];
    }
    assert OtherSections(now, id, semester, base) == OtherSections(students, id, semester, base);
  }

  predicate AllFull(students: Students, id: nat, semester: int, base: string) {
    forall s <- OtherSections(students, id, semester, base) :: Headcount(students, id, semester, s) >= CAPACITY
  }

  /** The section chosen has a free seat, except when every section in use is full and the next
      bucket's name is itself in use. */
  lemma CapacityKeptExactly(students: Students, id: nat, semester: int, base: string, section: string)
    requires base != "" && Picks(students, id, semester, base, section)
    ensures Headcount(students, id, semester, section) < CAPACITY
            <==> !(var others := OtherSections(students, id, semester, base);
                   others != {} && AllFull(students, id, semester, base) && SectionForBucket(base, |others|) in others)
  {
    hide Headcount;
    var others := OtherSections(students, id, semester, base);
    if AllFull(students, id, semester, base) {
      BucketExtends(base, |others|);
      if section !in others {
        NobodyThere(students, id, semester, base, section);
      }
    } else {
      var s :| s in others && Headcount(students, id, semester, s) < CAPACITY;
      assert Vacant(students, id, semester, base, s);
    }
  }

  function FirstIds(n: nat): set<nat> {
    if n == 0 then {} else FirstIds(n - 1) + {n - 1}
  }

  lemma {:induction false} FirstIdsAre(n: nat)
    ensures |FirstIds(n)| == n && forall i: nat :: i in FirstIds(n) <==> i < n
  {
    if n > 0 {
      FirstIdsAre(n - 1);
    }
  }

  /** Sixty students in section 125CSE2, after everybody has left 125CSE. */
  function SixtyInTheSecond(): Students {
    map i | i in FirstIds(60) :: Student(1, Some("125CSE2"), "CSE", None, None)
  }

  lemma SecondName()
    ensures SectionForBucket("125CSE", 1) == "125CSE2"
  {
    assert Decimal(2) == "2";
  }

  /** It can happen: the sixty-first student is sent to the full section. */
  lemma CapacityExceededExample(section: string)
    requires Picks(SixtyInTheSecond(), 60, 1, "125CSE", section)
    ensures section == "125CSE2" && Headcount(SixtyInTheSecond(), 60, 1, section) == CAPACITY
  {
    var students := SixtyInTheSecond();
    SecondName();
    SixtyMembers();
    hide SectionForBucket, FirstIds, Headcount;
    assert Placed(students[0], 1, "125CSE");
    assert students[0].section.value in OtherSections(students, 60, 1, "125CSE");
    assert OtherSections(students, 60, 1, "125CSE") == {"125CSE2"};
    assert forall s :: Vacant(students, 60, 1, "125CSE", s) ==> s == "125CSE2";
  }

  lemma SixtyMembers()
    ensures Headcount(SixtyInTheSecond(), 60, 1, "125CSE2") == 60 && 0 in SixtyInTheSecond()
  {
    FirstIdsAre(60);
    hide FirstIds;
    assert Members(SixtyInTheSecond(), 60, 1, "125CSE2") == FirstIds(60);
  }

  lemma BucketExtends(base: string, bucket: nat)
    ensures StartsWith(SectionForBucket(base, bucket), base)
  {
  }

  lemma NobodyThere(students: Students, id: nat, semester: int, base: string, section: string)
    requires section != "" && StartsWith(section, base) && section !in OtherSections(students, id, semester, base)
    ensures Headcount(students, id, semester, section) == 0
  {
    assert Members(students, id, semester, section) == {};
  }

  // ----- filling an empty base -----

  ghost predicate Distinct(roster: seq<nat>) {
    forall a, b :: 0 <= a < b < |roster| ==> roster[a] != roster[b]
  }

  ghost predicate SeatedAt(students: Students, semester: int, base: string, id: nat, k: nat) {
    && id in students && students[id].semester == semester
    && students[id].section == Some(SectionForBucket(base, k / CAPACITY))
    && students[id].updated.Some? && SectionBase(students[id], students[id].updated.value) == base
  }

  /** The students placed in the base are those of the roster, and the k-th of them (from 0) sits in
      bucket k div 60. */
  ghost predicate Filled(students: Students, semester: int, base: string, roster: seq<nat>) {
    && Distinct(roster)
    && (forall k :: 0 <= k < |roster| ==> SeatedAt(students, semester, base, roster[k], k))
    && forall i :: i in students && Placed(students[i], semester, base) ==> i in roster
  }

  function SetOf(s: seq<nat>): set<nat> {
    set x | x in s
  }

  lemma {:induction false} DistinctSize(s: seq<nat>)
    requires Distinct(s)
    ensures |SetOf(s)| == |s|
  {
    if s != [] {
      var n := |s| - 1;
      DistinctSize(s[..n]);
      assert s == s[..n] + [s[n]];
      assert SetOf(s) == SetOf(s[..n]) + {s[n]};
    }
  }

  /** The seats of the roster that fall into a bucket. */
  function Seats(roster: seq<nat>, bucket: nat): seq<nat> {
    roster[Min(|roster|, bucket * CAPACITY)..Min(|roster|, (bucket + 1) * CAPACITY)]
  }

  lemma SeatsAre(roster: seq<nat>, bucket: nat, id: nat)
    requires Distinct(roster)
    ensures id in Seats(roster, bucket) <==> exists k :: 0 <= k < |roster| && k / CAPACITY == bucket && roster[k] == id
    ensures Distinct(Seats(roster, bucket)) && |Seats(roster, bucket)| <= CAPACITY
  {
    var low := Min(|roster|, bucket * CAPACITY);
    var seats := Seats(roster, bucket);
    if id in seats {
      var i :| 0 <= i < |seats| && seats[i] == id;
      assert roster[low + i] == id && (low + i) / CAPACITY == bucket;
    }
    forall k | 0 <= k < |roster| && k / CAPACITY == bucket
      ensures roster[k] in seats
    {
      assert seats[k - low] == roster[k];
    }
  }

  lemma MembersAreSeats(students: Students, id: nat, semester: int, base: string, roster: seq<nat>, bucket: nat)
    requires base != "" && Filled(students, semester, base, roster)
    ensures Members(students, id, semester, SectionForBucket(base, bucket)) == SetOf(Seats(roster, bucket)) - {id}
  {
    hide SectionForBucket, Seats;
    var name := SectionForBucket(base, bucket);
    var members := Members(students, id, semester, name);
    BucketNamed(base, bucket);
    forall i | i in members
      ensures i in Seats(roster, bucket)
    {
      assert Placed(students[i], semester, base);
      var k :| 0 <= k < |roster| && roster[k] == i;
      assert SeatedAt(students, semester, base, roster[k], k);
      BucketInjective(base, k / CAPACITY, bucket);
      SeatsAre(roster, bucket, i);
    }
    forall i | i in Seats(roster, bucket) && i != id
      ensures i in members
    {
      SeatsAre(roster, bucket, i);
      var k :| 0 <= k < |roster| && k / CAPACITY == bucket && roster[k] == i;
      assert SeatedAt(students, semester, base, roster[k], k);
    }
  }

  lemma BucketNamed(base: string, bucket: nat)
    requires base != ""
    ensures SectionForBucket(base, bucket) != "" && StartsWith(SectionForBucket(base, bucket), base)
  {
  }

  /** Headcounts follow from the roster; a student who is not in the bucket sees all its seats taken. */
  lemma HeadcountIs(students: Students, id: nat, semester: int, base: string, roster: seq<nat>, bucket: nat)
    requires base != "" && Filled(students, semester, base, roster)
    ensures Headcount(students, id, semester, SectionForBucket(base, bucket))
            == |Seats(roster, bucket)| - if id in Seats(roster, bucket) then 1 else 0
  {
    hide SectionForBucket, Seats;
    MembersAreSeats(students, id, semester, base, roster, bucket);
    SeatsAre(roster, bucket, id);
    DistinctSize(Seats(roster, bucket));
    var all := SetOf(Seats(roster, bucket));
    if id in all {
      assert |all - {id}| == |all| - 1;
    } else {
      assert all - {id} == all;
    }
  }

  lemma OthersAre(students: Students, id: nat, semester: int, base: string, roster: seq<nat>, section: string)
    requires base != "" && Filled(students, semester, base, roster)
    ensures section in OtherSections(students, id, semester, base)
            <==> exists k :: 0 <= k < |roster| && roster[k] != id && section == SectionForBucket(base, k / CAPACITY)
  {
    hide SectionForBucket;
    if section in OtherSections(students, id, semester, base) {
      var i :| i in students && i != id && Placed(students[i], semester, base) && students[i].section.value == section;
      var k :| 0 <= k < |roster| && roster[k] == i;
      assert SeatedAt(students, semester, base, roster[k], k);
    }
    if k :| 0 <= k < |roster| && roster[k] != id && section == SectionForBucket(base, k / CAPACITY) {
      assert SeatedAt(students, semester, base, roster[k], k);
      BucketNamed(base, k / CAPACITY);
      assert Placed(students[roster[k]], semester, base);
    }
  }

  /** The first so many buckets. */
  function Buckets(base: string, count: nat): set<string> {
    set j | 0 <= j < count :: SectionForBucket(base, j)
  }

  lemma {:induction false} BucketsSize(base: string, count: nat)
    ensures |Buckets(base, count)| == count
  {
    if count > 0 {
      BucketsSize(base, count - 1);
      forall j | 0 <= j < count - 1
        ensures SectionForBucket(base, j) != SectionForBucket(base, count - 1)
      {
        if SectionForBucket(base, j) == SectionForBucket(base, count - 1) {
          BucketInjective(base, j, count - 1);
        }
      }
      assert Buckets(base, count) == Buckets(base, count - 1) + {SectionForBucket(base, count - 1)};
    }
  }

  /** With the first `count` buckets in use and the first `t` of them full, bucket t is picked if it
      has a free seat or is the next one. */
  lemma PicksTarget(students: Students, id: nat, semester: int, base: string, count: nat, t: nat, section: string)
    requires Picks(students, id, semester, base, section)
             && OtherSections(students, id, semester, base) == Buckets(base, count)
    requires forall j :: 0 <= j < t ==> Headcount(students, id, semester, SectionForBucket(base, j)) >= CAPACITY
    requires t == count || (t < count && Headcount(students, id, semester, SectionForBucket(base, t)) < CAPACITY)
    ensures section == SectionForBucket(base, t)
  {
    hide Headcount, SectionForBucket;
    BucketsSize(base, count);
    if t < count {
      assert Vacant(students, id, semester, base, SectionForBucket(base, t));
      var j :| 0 <= j < count && section == SectionForBucket(base, j);
      if t < j {
        BucketOrder(base, t, j);
      }
      BeforeTotal(section, SectionForBucket(base, t));
    } else if count == 0 {
      FirstBucket(base);
    } else {
      NonEmptyBuckets(base, count);
    }
  }

  lemma FirstBucket(base: string)
    ensures SectionForBucket(base, 0) == base
  {
  }

  lemma NonEmptyBuckets(base: string, count: nat)
    requires count > 0
    ensures SectionForBucket(base, 0) in Buckets(base, count)
  {
  }

  /** How many buckets the others occupy: a student alone in the last one leaves it empty. */
  function OthersCount(roster: seq<nat>, id: nat): nat {
    var n := |roster|;
    if n > 0 && n % CAPACITY == 1 && roster[n - 1] == id then n / CAPACITY else (n + CAPACITY - 1) / CAPACITY
  }

  lemma OthersFillBuckets(students: Students, id: nat, semester: int, base: string, roster: seq<nat>)
    requires base != "" && Filled(students, semester, base, roster)
    ensures OtherSections(students, id, semester, base) == Buckets(base, OthersCount(roster, id))
  {
    assert Distinct(roster);
    hide SectionForBucket, Filled, OtherSections, OthersCount, Distinct;
    var count := OthersCount(roster, id);
    forall section
      ensures section in OtherSections(students, id, semester, base) <==> section in Buckets(base, count)
    {
      OthersAre(students, id, semester, base, roster, section);
      if section in OtherSections(students, id, semester, base) {
        var k :| 0 <= k < |roster| && roster[k] != id && section == SectionForBucket(base, k / CAPACITY);
        BucketInUse(roster, id, k);
      }
      if j :| 0 <= j < count && section == SectionForBucket(base, j) {
        var k := SeatOfAnother(roster, id, j);
        assert k / CAPACITY == j;
      }
    }
  }

  lemma BucketInUse(roster: seq<nat>, id: nat, k: nat)
    requires k < |roster| && roster[k] != id
    ensures k / CAPACITY < OthersCount(roster, id)
  {
  }

  /** A seat in bucket j that belongs to someone else. */
  lemma SeatOfAnother(roster: seq<nat>, id: nat, j: nat) returns (k: nat)
    requires Distinct(roster) && j < OthersCount(roster, id)
    ensures k < |roster| && k / CAPACITY == j && roster[k] != id
  {
    k := j * CAPACITY;
    if roster[k] == id {
      k := k + 1;
    }
  }

  /** Where a student belongs: at their own seat, or at the end of the roster. */
  ghost function Place(roster: seq<nat>, id: nat): nat {
    if id in roster then (var p :| 0 <= p < |roster| && roster[p] == id; p) else |roster|
  }

  /** In a filled base the assignment always picks the bucket of the student's place, whether the
      student is new or asks again. */
  lemma PicksOwnBucket(students: Students, id: nat, semester: int, base: string, roster: seq<nat>, section: string)
    requires base != "" && Filled(students, semester, base, roster) && Picks(students, id, semester, base, section)
    ensures section == SectionForBucket(base, Place(roster, id) / CAPACITY)
  {
    hide SectionForBucket, Picks, Headcount, OtherSections;
    var place := Place(roster, id);
    var t, count := place / CAPACITY, OthersCount(roster, id);
    OthersFillBuckets(students, id, semester, base, roster);
    forall j: nat | j <= t
      ensures j < t ==> Headcount(students, id, semester, SectionForBucket(base, j)) >= CAPACITY
      ensures j == t < count ==> Headcount(students, id, semester, SectionForBucket(base, j)) < CAPACITY
    {
      HeadcountIs(students, id, semester, base, roster, j);
      SeatsAre(roster, j, id);
    }
    PicksTarget(students, id, semester, base, count, t, section);
  }

  // ----- runs -----

  /** One call: an admission brings a student who has no section yet; otherwise the student is known. */
  datatype Call = Call(id: nat, admission: Option<Student>, today: Date, force: bool)

  function Arrived(was: Students, c: Call): Students {
    if c.admission.Some? then was[c.id := c.admission.value] else was
  }

  /** Admissions of new students, and repeated calls within the term of the student's last one. */
  ghost predicate Legal(was: Students, c: Call) {
    if c.admission.Some? then c.id !in was && c.admission.value.section.None?
    else c.id in was && TermStart(MarkerOf(was[c.id], c.today)) == TermStart(c.today)
  }

  ghost predicate Answers(was: Students, c: Call, now: Students) {
    && c.id in now && now[c.id].section.Some?
    && Assigned(Arrived(was, c), c.id, c.today, c.force, now, now[c.id].section.value)
  }

  /** The base a call works with. */
  function WorkBase(was: Students, c: Call): string
    requires c.id in Arrived(was, c)
  {
    SectionBase(Promoted(Arrived(was, c)[c.id], c.today), c.today)
  }

  function WorkSemester(was: Students, c: Call): int
    requires c.id in Arrived(was, c)
  {
    Promoted(Arrived(was, c)[c.id], c.today).semester
  }

  predicate Works(was: Students, c: Call, semester: int, base: string)
    requires c.id in Arrived(was, c)
  {
    WorkSemester(was, c) == semester && WorkBase(was, c) == base
  }

  /** Neither base is a prefix of the other, or they serve different semesters. */
  predicate Apart(was: Students, c: Call, semester: int, base: string)
    requires c.id in Arrived(was, c)
  {
    WorkSemester(was, c) == semester ==> !StartsWith(WorkBase(was, c), base) && !StartsWith(base, WorkBase(was, c))
  }

  /** A call that places a student in the base for the first time adds them to the roster. */
  function NextRoster(was: Students, c: Call, semester: int, base: string, roster: seq<nat>): seq<nat>
    requires c.id in Arrived(was, c)
  {
    if Works(was, c, semester, base) && c.id !in roster && !Keeps(Arrived(was, c)[c.id], c.today, c.force)
    then roster + [c.id]
    else roster
  }

  lemma BaseNotEmpty(s: Student, today: Date)
    ensures SectionBase(s, today) != ""
  {
    NotEmpty(0);
  }

  predicate Sits(s: Student, semester: int, base: string, k: nat) {
    && s.semester == semester && s.section == Some(SectionForBucket(base, k / CAPACITY))
    && s.updated.Some? && SectionBase(s, s.updated.value) == base
  }

  lemma NewcomerSits(was: Students, id: nat, s: Student, semester: int, base: string, roster: seq<nat>)
    requires Filled(was, semester, base, roster) && id !in roster && Sits(s, semester, base, |roster|)
    ensures Filled(was[id := s], semester, base, roster + [id])
  {
    hide SectionForBucket, SectionBase;
    forall k | 0 <= k < |roster|
      ensures SeatedAt(was[id := s], semester, base, roster[k], k)
    {
      assert SeatedAt(was, semester, base, roster[k], k);
    }
  }

  lemma StaysSeated(was: Students, s: Student, semester: int, base: string, roster: seq<nat>, p: nat)
    requires Filled(was, semester, base, roster) && p < |roster| && Sits(s, semester, base, p)
    ensures Filled(was[roster[p] := s], semester, base, roster)
  {
    hide SectionForBucket, SectionBase;
    forall k | 0 <= k < |roster|
      ensures SeatedAt(was[roster[p] := s], semester, base, roster[k], k)
    {
      assert SeatedAt(was, semester, base, roster[k], k);
    }
  }

  /** A student of the roster works with this base. */
  lemma RosterWorks(was: Students, c: Call, semester: int, base: string, roster: seq<nat>)
    requires Legal(was, c) && Filled(was, semester, base, roster) && c.id in roster
    ensures Works(was, c, semester, base) && !Apart(was, c, semester, base)
  {
    var k :| 0 <= k < |roster| && roster[k] == c.id;
    assert SeatedAt(was, semester, base, roster[k], k);
    hide SectionBase;
  }

  /** A call for a student of another base leaves this one alone. */
  lemma ApartKeepsFilled(was: Students, c: Call, now: Students, semester: int, base: string, roster: seq<nat>)
    requires Legal(was, c) && Answers(was, c, now) && Apart(was, c, semester, base)
    requires Filled(was, semester, base, roster)
    ensures Filled(now, semester, base, roster)
  {
    if c.id in roster {
      RosterWorks(was, c, semester, base, roster);
    }
    var came := Arrived(was, c);
    if !Keeps(came[c.id], c.today, c.force) {
      hide SectionBase, Filled, Picks, Placed;
      var s := now[c.id];
    }
  }

  /** A call for a student of this base seats them in the bucket of their place. */
  lemma WorksKeepsFilled(was: Students, c: Call, now: Students, semester: int, base: string, roster: seq<nat>)
    requires Legal(was, c) && Answers(was, c, now) && Works(was, c, semester, base)
    requires Filled(was, semester, base, roster)
    ensures Filled(now, semester, base, NextRoster(was, c, semester, base, roster))
  {
    BaseNotEmpty(Promoted(Arrived(was, c)[c.id], c.today), c.today);
    var came := Arrived(was, c);
    var s := now[c.id];
    if !Keeps(came[c.id], c.today, c.force) {
      PicksOwnBucket(came, c.id, semester, base, roster, s.section.value);
      assert Sits(s, semester, base, Place(roster, c.id)) by {
        hide SectionForBucket;
      }
      assert Distinct(roster);
      hide SectionBase, Filled, Picks, Placed, SectionForBucket, Sits;
      if c.id in roster {
        var p :| 0 <= p < |roster| && roster[p] == c.id;
        StaysSeated(came, s, semester, base, roster, p);
      } else {
        NewcomerSits(came, c.id, s, semester, base, roster);
      }
    }
  }

  /** A run: the states between the calls. */
  ghost predicate IsRun(states: seq<Students>, calls: seq<Call>) {
    && |states| == |calls| + 1
    && forall i :: 0 <= i < |calls| ==> Legal(states[i], calls[i]) && Answers(states[i], calls[i], states[i + 1])
  }

  /** Every call of the run works with the base or stays apart from it. */
  ghost predicate NoEntangledBase(states: seq<Students>, calls: seq<Call>, semester: int, base: string)
    requires IsRun(states, calls)
  {
    forall i {:trigger calls[i]} :: 0 <= i < |calls| ==>
      Works(states[i], calls[i], semester, base) || Apart(states[i], calls[i], semester, base)
  }

  ghost function RunRoster(states: seq<Students>, calls: seq<Call>, semester: int, base: string): seq<nat>
    requires IsRun(states, calls)
    decreases |calls|
  {
    if calls == [] then []
    else
      var n := |calls| - 1;
      var roster := RunRoster(states[..n + 1], calls[..n], semester, base);
      NextRoster(states[n], calls[n], semester, base, roster)
  }

  /** Any call of a run keeps the base filled. */
  lemma CallKeepsFilled(was: Students, c: Call, now: Students, semester: int, base: string, roster: seq<nat>)
    requires Legal(was, c) && Answers(was, c, now) && Filled(was, semester, base, roster)
    requires c.id in Arrived(was, c) ==> Works(was, c, semester, base) || Apart(was, c, semester, base)
    ensures c.id in Arrived(was, c) && Filled(now, semester, base, NextRoster(was, c, semester, base, roster))
  {
    CallerArrives(was, c, now);
    hide Legal, Answers, Works, Apart, Filled, NextRoster;
    if Works(was, c, semester, base) {
      WorksKeepsFilled(was, c, now, semester, base, roster);
    } else {
      NotWorking(was, c, semester, base, roster);
      ApartKeepsFilled(was, c, now, semester, base, roster);
    }
  }

  lemma PrefixRun(states: seq<Students>, calls: seq<Call>, semester: int, base: string, n: nat)
    requires IsRun(states, calls) && NoEntangledBase(states, calls, semester, base) && n <= |calls|
    ensures IsRun(states[..n + 1], calls[..n]) && NoEntangledBase(states[..n + 1], calls[..n], semester, base)
  {
    hide Legal, Answers, Works, Apart, Arrived;
  }

  /** From an empty base on, through admissions and repeated calls in any order and among calls for
      unrelated bases, the n-th student placed (from 0) sits in bucket n div 60. */
  lemma {:induction false} AdmissionsFillInOrder(states: seq<Students>, calls: seq<Call>, semester: int, base: string)
    requires IsRun(states, calls) && NoEntangledBase(states, calls, semester, base)
    requires forall i :: i in states[0] ==> !Placed(states[0][i], semester, base)
    ensures Filled(states[|calls|], semester, base, RunRoster(states, calls, semester, base))
    decreases |calls|
  {
    hide Legal, Answers, Works, Apart, Placed, SeatedAt, NextRoster, Arrived;
    if calls != [] {
      var n := |calls| - 1;
      PrefixRun(states, calls, semester, base, n);
      AdmissionsFillInOrder(states[..n + 1], calls[..n], semester, base);
      hide Filled;
      CallKeepsFilled(states[n], calls[n], states[n + 1], semester, base,
                      RunRoster(states[..n + 1], calls[..n], semester, base));
    }
  }

  lemma CallerArrives(was: Students, c: Call, now: Students)
    requires Answers(was, c, now)
    ensures c.id in Arrived(was, c)
  {
  }

  lemma NotWorking(was: Students, c: Call, semester: int, base: string, roster: seq<nat>)
    requires c.id in Arrived(was, c) && !Works(was, c, semester, base)
    ensures NextRoster(was, c, semester, base, roster) == roster
  {
  }

  /** No section of a filled base seats more than its capacity. */
  lemma NoSectionOverfull(students: Students, semester: int, base: string, roster: seq<nat>, section: string)
    requires base != "" && Filled(students, semester, base, roster) && section != "" && StartsWith(section, base)
    ensures |set i | i in students && students[i].semester == semester
            && students[i].section == Some(section)| <= 60
  {
    hide SectionForBucket, Seats;
    var sitting := set i | i in students && students[i].semester == semester && students[i].section == Some(section);
    if sitting != {} {
      var i: nat :| i in sitting;
      assert Placed(students[i], semester, base);
      var k :| 0 <= k < |roster| && roster[k] == i;
      assert SeatedAt(students, semester, base, roster[k], k);
      var bucket := k / CAPACITY;
      MembersAreSeats(students, i, semester, base, roster, bucket);
      SeatsAre(roster, bucket, i);
      DistinctSize(Seats(roster, bucket));
      assert sitting == Members(students, i, semester, section) + {i};
      assert sitting == SetOf(Seats(roster, bucket));
    }
  }

  /** In a filled base a repeated call that works with the base, as every one within the term does,
      answers the student's present section, forced or not, also where the policy does not recognize
      the section's own name. */
  lemma RepeatKeepsSection(was: Students, c: Call, now: Students, semester: int, base: string, roster: seq<nat>, k: nat)
    requires Filled(was, semester, base, roster) && k < |roster| && roster[k] == c.id
    requires c.admission.None? && Answers(was, c, now) && Works(was, c, semester, base)
    ensures now[c.id].section == was[c.id].section == Some(SectionForBucket(base, k / CAPACITY))
    ensures now[c.id].semester == semester
  {
    assert SeatedAt(was, semester, base, roster[k], k);
    BaseNotEmpty(Promoted(was[c.id], c.today), c.today);
    hide SectionBase, Filled, SectionForBucket;
    if !Keeps(was[c.id], c.today, c.force) {
      PicksOwnBucket(was, c.id, semester, base, roster, now[c.id].section.value);
      FilledPlace(was, semester, base, roster, k);
    }
  }

  lemma FilledPlace(students: Students, semester: int, base: string, roster: seq<nat>, k: nat)
    requires Filled(students, semester, base, roster) && k < |roster|
    ensures Place(roster, roster[k]) == k
  {
  }

  /** An unforced repeated call leaves the whole table as it is, with any other students around,
      exactly when it keeps: for a section named by its bucket, when the suffix does not begin with 1.
      Otherwise it chooses afresh and renews the marker. */
  lemma RepeatChangesNothingWhen(was: Students, c: Call, now: Students, base: string, bucket: nat)
    requires Legal(was, c) && c.admission.None? && !c.force && Answers(was, c, now)
    requires was[c.id].section == Some(SectionForBucket(base, bucket)) && SectionBase(was[c.id], c.today) == base
    requires Normalize(base) != ""
    ensures bucket == 0 || LeadingDigit(bucket + 1) >= 2 ==> now == was
    ensures !(bucket == 0 || LeadingDigit(bucket + 1) >= 2) ==>
              Picks(was, c.id, was[c.id].semester, base, now[c.id].section.value) && now[c.id].updated == Some(c.today)
  {
    hide SectionBase, SectionForBucket, SectionMatchesPolicyBase, Normalize, Picks;
    OwnNameRecognized(base, bucket);
    NormalizedNotEmpty(base, bucket);
  }

  lemma NormalizedNotEmpty(base: string, bucket: nat)
    requires Normalize(base) != ""
    ensures SectionForBucket(base, bucket) != ""
  {
  }

  predicate IsDigit(c: char) {
    '0' <= c <= '9'
  }

  /** A bucket's own name goes on with digits, so it does not start with a name that goes on otherwise. */
  lemma BucketIsNotLonger(base: string, longer: string, bucket: nat)
    requires |longer| > |base| && StartsWith(longer, base) && !IsDigit(longer[|base|])
    ensures !StartsWith(SectionForBucket(base, bucket), longer)
  {
    DecimalDigits(bucket + 1);
    hide Decimal;
    var name := SectionForBucket(base, bucket);
    assert bucket > 0 ==> |name| > |base| && IsDigit(name[|base|]);
    CharsAgree(name, longer, |base|);
  }

  lemma CharsAgree(s: string, base: string, k: nat)
    requires k < |base|
    ensures StartsWith(s, base) ==> k < |s| && s[k] == base[k]
  {
    if StartsWith(s, base) {
      assert s[..|base|][k] == s[k];
    }
  }

  /** Bases of which one is a prefix of the other do get entangled. While only the longer base has
      sections, every student of the shorter one is sent to one of those as long as any has a free
      seat; once all are full they get the shorter base's own bucket, numbered by the other's
      sections, which nobody uses unless the longer base goes on with a digit. */
  lemma PrefixBaseShares(students: Students, id: nat, semester: int, base: string, longer: string, section: string)
    requires base != "" && |longer| > |base| && StartsWith(longer, base) && Picks(students, id, semester, base, section)
    requires OtherSections(students, id, semester, base) != {}
    requires forall s :: s in OtherSections(students, id, semester, base) ==> StartsWith(s, longer)
    ensures !AllFull(students, id, semester, base) ==>
              StartsWith(section, longer) && Vacant(students, id, semester, base, section)
    ensures AllFull(students, id, semester, base) ==>
              section == SectionForBucket(base, |OtherSections(students, id, semester, base)|)
    ensures !IsDigit(longer[|base|]) ==>
              (StartsWith(section, longer) <==> !AllFull(students, id, semester, base))
              && (AllFull(students, id, semester, base) ==> Headcount(students, id, semester, section) == 0)
  {
    hide Headcount, SectionForBucket;
    var others := OtherSections(students, id, semester, base);
    if AllFull(students, id, semester, base) {
      if !IsDigit(longer[|base|]) {
        BucketIsNotLonger(base, longer, |others|);
        BucketNamed(base, |others|);
        NobodyThere(students, id, semester, base, section);
      }
    } else {
      var s :| s in others && Headcount(students, id, semester, s) < CAPACITY;
      assert Vacant(students, id, semester, base, s);
    }
  }

  /** For example, with one student of stream CSE in section 125CSE, a student of stream CS is sent
      there too. */
  lemma PrefixBaseExample(cse: Student, id: nat, other: nat, section: string)
    requires cse.semester == 1 && cse.section == Some("125CSE") && id != other
    requires Picks(map[other := cse], id, 1, "125CS", section)
    ensures section == "125CSE"
  {
    var students := map[other := cse];
    assert Placed(students[other], 1, "125CS");
    assert students[other].section.value in OtherSections(students, id, 1, "125CS");
    assert Members(students, id, 1, "125CSE") == {other};
    assert Vacant(students, id, 1, "125CS", "125CSE");
  }

  // ----- promotion over a student's calls -----

  /** One student's row before each of their calls and after the last, with the days of the calls. */
  ghost predicate RowHistory(rows: seq<Student>, days: seq<Date>) {
    && |rows| == |days| + 1
    && forall i :: 0 <= i < |days| ==>
         && rows[i + 1].semester == Promoted(rows[i], days[i]).semester
         && rows[i + 1].created == rows[i].created
         && (rows[i + 1].updated == Some(days[i])
             || (rows[i + 1].updated == rows[i].updated && ElapsedFor(rows[i], days[i]) == 0))
  }

  lemma AssignedRow(was: Students, id: nat, today: Date, force: bool, now: Students, answer: string)
    requires Assigned(was, id, today, force, now, answer)
    ensures id in now && RowHistory([was[id], now[id]], [today])
    ensures forall i :: i != id ==> (i in was <==> i in now) && (i in was ==> now[i] == was[i])
  {
    hide Picks, SectionBase, SectionMatchesPolicyBase, TermsElapsed;
  }

  ghost predicate Ordered(days: seq<Date>) {
    forall i, j :: 0 <= i <= j < |days| ==> NotAfter(days[i], days[j])
  }

  /** A stored student has a creation day. */
  function StoredMarker(s: Student): Date
    requires s.updated.Some? || s.created.Some?
  {
    if s.updated.Some? then s.updated.value else s.created.value
  }

  /** However a student's calls are spread over the days, the semester at the end is the one a single
      promotion from the first marker to the last day gives. */
  lemma {:induction false} PromotionOverCalls(rows: seq<Student>, days: seq<Date>)
    requires RowHistory(rows, days) && Ordered(days) && days != []
    requires rows[0].created.Some? && rows[0].semester >= 0 && NotAfter(StoredMarker(rows[0]), days[0])
    ensures rows[|days|].semester == PromoteBy(rows[0].semester, TermsElapsed(StoredMarker(rows[0]), days[|days| - 1]))
    ensures rows[|days|].created == rows[0].created
    ensures var m := StoredMarker(rows[|days|]);
            TermStart(m) == TermStart(days[|days| - 1]) && NotAfter(m, days[|days| - 1])
    decreases |days|
  {
    hide TermsElapsed, TermStart;
    var n := |days| - 1;
    var m0, last := StoredMarker(rows[0]), days[n];
    if n == 0 {
      TermsAddUp(m0, last, last);
    } else {
      var before := days[n - 1];
      PromotionOverCalls(rows[..n + 1], days[..n]);
      var m := StoredMarker(rows[n]);
      TermsAddUp(m0, before, last);
      SameStartSameTerms(m, before, last);
      TermsAddUp(m, last, last);
      PromotionPathIndependent(rows[0].semester, TermsElapsed(m0, before), TermsElapsed(before, last));
    }
  }

  lemma SameStartSameTerms(a: Date, b: Date, c: Date)
    requires TermStart(a) == TermStart(b)
    ensures TermsElapsed(a, c) == TermsElapsed(b, c)
  {
  }

  // ----- the registry -----

  predicate SortedTexts(s: seq<string>) {
    forall i, j :: 0 <= i < j < |s| ==> Before(s[i], s[j])
  }

  lemma {:induction false} InsertSorted(s: seq<string>, k: nat, x: string)
    requires SortedTexts(s) && k <= |s|
    requires (forall i :: 0 <= i < k ==> Before(s[i], x)) && (forall i :: k <= i < |s| ==> Before(x, s[i]))
    ensures SortedTexts(s[..k] + [x] + s[k..])
  {
  }

  class Registry {
    var students: map<nat, Student>

    constructor ()
      ensures students == map[]
    {
      students := map[];
    }

    /** The distinct texts, shorter ones first and those of one length by their characters. */
    static method SortTexts(texts: set<string>) returns (r: seq<string>)
      ensures SortedTexts(r) && |r| == |texts| && forall x :: x in r <==> x in texts
    {
      hide Before;
      r := [];
      var rest := texts;
      while rest != {}
        invariant SortedTexts(r) && rest <= texts && |r| + |rest| == |texts|
        invariant forall x :: x in texts <==> x in r || x in rest
        invariant forall x :: x in rest ==> x !in r
        decreases |rest|
      {
        var x :| x in rest;
        var k := 0;
        while k < |r| && Before(r[k], x)
          invariant k <= |r| && forall i :: 0 <= i < k ==> Before(r[i], x)
        {
          k := k + 1;
        }
        AllAfter(r, k, x);
        InsertSorted(r, k, x);
        InsertMembers(r, k, x);
        r := r[..k] + [x] + r[k..];
        rest := rest - {x};
      }
    }

    /** Promotes the student by the terms elapsed since their marker and gives them a section, unless
        they keep the one they have. */
    method AssignStudentSection(id: nat, today: Date, force: bool) returns (answer: string)
      requires id in students
      modifies this
      ensures Assigned(old(students), id, today, force, students, answer)
    {
      hide SectionBase, SectionMatchesPolicyBase, TermsElapsed, OtherSections, Headcount, Before, SectionForBucket;
      ghost var was := students;
      var student := students[id];
      var elapsed := ElapsedFor(student, today);
      if elapsed != 0 {
        student := student.(semester := Min(LAST_SEMESTER, Effective(student.semester) + elapsed));
        students := students[id := student];
      } else {
        assert students[id := student] == students;
      }
      assert student == Promoted(was[id], today);
      var base := SectionBase(student, today);
      if student.section.Some? && student.section.value != "" && elapsed == 0 && !force
         && SectionMatchesPolicyBase(student.section, base) {
        return student.section.value;
      }
      var semester := student.semester;
      var existing := OtherSections(students, id, semester, base);
      OwnRowIrrelevantEverywhere(was, id, student, semester, base);
      if existing != {} {
        var sections := SortTexts(existing);
        var i := 0;
        while i < |sections| && Headcount(students, id, semester, sections[i]) >= CAPACITY
          invariant i <= |sections|
          invariant forall j :: 0 <= j < i ==> Headcount(students, id, semester, sections[j]) >= CAPACITY
        {
          i := i + 1;
        }
        if i < |sections| {
          answer := sections[i];
          FirstVacant(students, id, semester, base, sections, i);
        } else {
          answer := SectionForBucket(base, |sections|);
          NoneVacant(students, id, semester, base, sections);
        }
      } else {
        answer := base;
      }
      PicksFromRowless(was, id, student, semester, base, answer);
      students := students[id := student.(section := Some(answer), updated := Some(today))];
    }
  }

  lemma AllAfter(r: seq<string>, k: nat, x: string)
    requires SortedTexts(r) && k <= |r| && x !in r && (k < |r| ==> !Before(r[k], x))
    ensures forall i :: k <= i < |r| ==> Before(x, r[i])
  {
    hide Before;
    if k < |r| {
      BeforeTotal(x, r[k]);
      forall i | k < i < |r|
        ensures Before(x, r[i])
      {
        BeforeTransitive(x, r[k], r[i]);
      }
    }
  }

  lemma InsertMembers(r: seq<string>, k: nat, x: string)
    requires k <= |r|
    ensures forall y :: y in r[..k] + [x] + r[k..] <==> y in r || y == x
  {
    assert r == r[..k] + r[k..];
  }

  lemma OwnRowIrrelevantEverywhere(students: Students, id: nat, s: Student, semester: int, base: string)
    ensures OtherSections(students[id := s], id, semester, base) == OtherSections(students, id, semester, base)
    ensures forall section {:trigger Headcount(students, id, semester, section)}
                           {:trigger Headcount(students[id := s], id, semester, section)} ::
              Headcount(students[id := s], id, semester, section) == Headcount(students, id, semester, section)
  {
    forall section
      ensures Headcount(students[id := s], id, semester, section) == Headcount(students, id, semester, section)
    {
      OwnRowIrrelevant(students, id, s, semester, base, section);
    }
    OwnRowIrrelevant(students, id, s, semester, base, base);
  }

  lemma FirstVacant(students: Students, id: nat, semester: int, base: string, sections: seq<string>, i: nat)
    requires SortedTexts(sections) && i < |sections|
    requires forall x :: x in sections <==> x in OtherSections(students, id, semester, base)
    requires forall j :: 0 <= j < i ==> Headcount(students, id, semester, sections[j]) >= CAPACITY
    requires Headcount(students, id, semester, sections[i]) < CAPACITY
    ensures Picks(students, id, semester, base, sections[i])
  {
    hide Headcount, OtherSections, Before;
    assert sections[i] in sections;
    assert Vacant(students, id, semester, base, sections[i]);
    forall s | Vacant(students, id, semester, base, s) && s != sections[i]
      ensures Before(sections[i], s)
    {
      assert s in sections;
      var j :| 0 <= j < |sections| && sections[j] == s;
      assert i < j;
    }
  }

  lemma NoneVacant(students: Students, id: nat, semester: int, base: string, sections: seq<string>)
    requires SortedTexts(sections) && sections != []
    requires forall x :: x in sections <==> x in OtherSections(students, id, semester, base)
    requires |sections| == |OtherSections(students, id, semester, base)|
    requires forall j :: 0 <= j < |sections| ==> Headcount(students, id, semester, sections[j]) >= CAPACITY
    ensures Picks(students, id, semester, base, SectionForBucket(base, |sections|))
  {
    hide Headcount, OtherSections, Before;
    assert sections[0] in sections;
    forall s
      ensures !Vacant(students, id, semester, base, s)
    {
      if s in sections {
        var j :| 0 <= j < |sections| && sections[j] == s;
        assert Headcount(students, id, semester, sections[j]) >= CAPACITY;
      }
    }
  }

  /** A choice made with the promoted row in place is one made from the table as it was. */
  lemma PicksFromRowless(students: Students, id: nat, s: Student, semester: int, base: string, section: string)
    requires Picks(students[id := s], id, semester, base, section)
    ensures Picks(students, id, semester, base, section)
  {
    OwnRowIrrelevantEverywhere(students, id, s, semester, base);
    hide Headcount, OtherSections, Before, SectionForBucket;
    assert forall x {:trigger Vacant(students, id, semester, base, x)}
                    {:trigger Vacant(students[id := s], id, semester, base, x)} ::
        Vacant(students, id, semester, base, x) <==> Vacant(students[id := s], id, semester, base, x);
  }
}
