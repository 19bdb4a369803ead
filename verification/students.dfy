/** The Student record, its three validation rules, and the one-line summary
    the registry renders for a stored student. */
module Students {
  import Decimal
  import opened Wrappers

  datatype Student = Student(id: int, name: string, age: int, email: string)

  /** One failed rule: the offending field and a human-readable message. */
  datatype ValidationError = ValidationError(field: string, message: string)

  const MinAge: int := 0
  const MaxAge: int := 150

  const NameRequired := ValidationError("name", "Name is required")
  const AgeOutOfRange := ValidationError("age", "Age must be between 0 and 150")
  const EmailRequired := ValidationError("email", "Email is required")

  /** The acceptance rule, stated independently of how `Validate` reports it. */
  predicate IsValid(st: Student) {
    && st.name != ""
    && MinAge <= st.age <= MaxAge
    && st.email != ""
  }

  /** Position of a field in the order the rules are checked: name, age, email. */
  function FieldRank(field: string): int {
    if field == "name" then 0
    else if field == "age" then 1
    else if field == "email" then 2
    else 3
  }

  /** Every failing rule contributes exactly one error, in rule order; a
      valid student yields no errors. The id plays no part. */
  function Validate(st: Student): (errs: seq<ValidationError>)
    ensures |errs| <= 3
    ensures |errs| == 0 <==> IsValid(st)
    ensures NameRequired in errs <==> st.name == ""
    ensures AgeOutOfRange in errs <==> (st.age < MinAge || st.age > MaxAge)
    ensures EmailRequired in errs <==> st.email == ""
    ensures forall i :: 0 <= i < |errs| ==> errs[i] in [NameRequired, AgeOutOfRange, EmailRequired]
    ensures forall i, j :: 0 <= i < j < |errs| ==> FieldRank(errs[i].field) < FieldRank(errs[j].field)
  {
    (if st.name == "" then [NameRequired] else [])
    + (if st.age < MinAge || st.age > MaxAge then [AgeOutOfRange] else [])
    + (if st.email == "" then [EmailRequired] else [])
  }

  /** Validation looks at name, age and email only. */
  lemma ValidateIgnoresId(st: Student, id: int)
    ensures Validate(st.(id := id)) == Validate(st)
    ensures IsValid(st.(id := id)) <==> IsValid(st)
  {
  }

  const SummaryPrefix := "Student "
  const SummaryIs := " is "
  const SummaryMiddle := " years old with email "
  const SummaryEnd := "."

  /** The summary sentence, with the age printed as Go's `%d` prints it. */
  function SummaryText(st: Student): string {
    SummaryPrefix + st.name + SummaryIs + Decimal.IntToString(st.age)
    + SummaryMiddle + st.email + SummaryEnd
  }

  /** The summary keeps the name and email verbatim at fixed offsets, and
      the age can be read back from the span between them. */
  lemma SummaryTextFields(st: Student)
    ensures var r := SummaryText(st);
      var ageStart := |SummaryPrefix| + |st.name| + |SummaryIs|;
      var ageEnd := |r| - |SummaryMiddle| - |st.email| - |SummaryEnd|;
      && ageStart < ageEnd
      && r[..|SummaryPrefix|] == SummaryPrefix
      && r[|SummaryPrefix|..|SummaryPrefix| + |st.name|] == st.name
      && r[ageEnd + |SummaryMiddle|..|r| - |SummaryEnd|] == st.email
      && Decimal.ParseInt(r[ageStart..ageEnd]) == Some(st.age)
  {
    var r := SummaryText(st);
    var a := Decimal.IntToString(st.age);
    var ageStart := |SummaryPrefix| + |st.name| + |SummaryIs|;
    var ageEnd := |r| - |SummaryMiddle| - |st.email| - |SummaryEnd|;
    assert r == SummaryPrefix + st.name + SummaryIs + a + SummaryMiddle + st.email + SummaryEnd;
    assert r[ageStart..ageEnd] == a;
    assert r[|SummaryPrefix|..|SummaryPrefix| + |st.name|] == st.name;
    assert r[ageEnd + |SummaryMiddle|..|r| - |SummaryEnd|] == st.email;
    Decimal.IntToStringRoundTrip(st.age);
  }

  /** The summary sentence for the student Ann (20, a@b.com). */
  lemma AnnSummaryText()
    ensures SummaryText(Student(1, "Ann", 20, "a@b.com"))
      == "Student Ann is 20 years old with email a@b.com."
  {
    Decimal.TwentyPrints();
    // The string equality is split into one concatenation per step for the solver.
    assert "Student " + "Ann" == "Student Ann";
    assert "Student Ann" + " is " == "Student Ann is ";
    assert "Student Ann is " + "20" == "Student Ann is 20";
    assert "Student Ann is 20" + " years old with email " == "Student Ann is 20 years old with email ";
    assert "Student Ann is 20 years old with email " + "a@b.com" == "Student Ann is 20 years old with email a@b.com";
    assert "Student Ann is 20 years old with email a@b.com" + "." == "Student Ann is 20 years old with email a@b.com.";
  }
}
