/** `validateTaskData`: the checks on one spreadsheet row. */
module RowCheck {
  import opened Text
  import opened Limits

  /** One parsed spreadsheet row: column header to cell text. */
  type Row = map<string, string>

  /** `record[key]` is truthy: the column is present and the cell is not empty. */
  predicate HasField(row: Row, key: string) {
    key in row && row[key] != ""
  }

  /** The cell text, with a missing column read as the empty string. */
  function FieldOr(row: Row, key: string): string {
    if key in row then row[key] else ""
  }

  datatype RowError =
    | FirstNameRequired | FirstNameTooShort | FirstNameTooLong | FirstNameInvalidChars
    | PhoneRequired | PhoneTooShort | PhoneTooLong | PhoneInvalidChars | DuplicatePhone
    | NotesTooLong

  function RowErrorMessage(e: RowError): string {
    match e
    case FirstNameRequired => "FirstName is required"
    case FirstNameTooShort => "FirstName must be at least 2 characters"
    case FirstNameTooLong => "FirstName must not exceed 50 characters"
    case FirstNameInvalidChars => "FirstName contains invalid characters"
    case PhoneRequired => "Phone is required"
    case PhoneTooShort => "Phone number must be at least 10 digits"
    case PhoneTooLong => "Phone number must not exceed 15 digits"
    case PhoneInvalidChars => "Phone number contains invalid characters"
    case DuplicatePhone => "Duplicate phone number found"
    case NotesTooLong => "Notes must not exceed 500 characters"
  }

  /** The errors the FirstName checks can raise. */
  predicate IsNameError(e: RowError) {
    e.FirstNameRequired? || e.FirstNameTooShort? || e.FirstNameTooLong? || e.FirstNameInvalidChars?
  }

  /** The errors the Phone checks can raise. */
  predicate IsPhoneError(e: RowError) {
    e.PhoneRequired? || e.PhoneTooShort? || e.PhoneTooLong? || e.PhoneInvalidChars? || e.DuplicatePhone?
  }

  /** `sanitizedData`: the record as it is stored when the row is accepted. */
  datatype Sanitized = Sanitized(firstName: string, phone: string, notes: string)

  /** The row-level `warnings` list is always empty, so it is not carried. */
  datatype RowVerdict = RowVerdict(isValid: bool, errors: seq<RowError>, sanitized: Sanitized)

  /** The class `[a-zA-Z\s-']`. */
  predicate NameChar(c: char) {
    IsAsciiLetter(c) || IsSpace(c) || c == '-' || c == '\''
  }

  /** `/^[a-zA-Z\s-']+$/.test(s)` */
  predicate MatchesNamePattern(s: string) {
    |s| > 0 && forall i :: 0 <= i < |s| ==> NameChar(s[i])
  }

  /** The class `[\d\s-()]`. */
  predicate PhoneChar(c: char) {
    IsDigit(c) || IsSpace(c) || c == '-' || c == '(' || c == ')'
  }

  /** `/^\+?[\d\s-()]+$/.test(s)`: '+' is not in the class, so a leading '+'
      can only be consumed by the optional prefix. */
  predicate MatchesPhonePattern(s: string) {
    var body := if |s| > 0 && s[0] == '+' then s[1..] else s;
    |body| > 0 && forall i :: 0 <= i < |body| ==> PhoneChar(body[i])
  }

  /** `phone.toString().trim().replace(/\s+/g, "")` */
  function NormalizePhone(p: string): string {
    StripSpaces(Trim(p))
  }

  /** Trimming first changes nothing: the normalised phone is the cell with
      every whitespace character deleted, and has none left. */
  lemma NormalizePhoneSpec(p: string)
    ensures NormalizePhone(p) == StripSpaces(p)
    ensures NoSpace(NormalizePhone(p))
  {
    StripSpacesOfTrim(p);
  }

  /** The name rule, stated without the error list: present, and trimmed it
      is 2 to 50 code units of letters, whitespace, '-' and "'". */
  predicate NameAcceptable(row: Row) {
    && HasField(row, "FirstName")
    && var name := Trim(row["FirstName"]);
       && NameMinLength <= Utf16Length(name) <= NameMaxLength
       && forall i :: 0 <= i < |name| ==> NameChar(name[i])
  }

  /** The phone rule: present, and without whitespace it is 10 to 15 code
      units, an optional '+' and then digits, '-', '(' and ')' only. */
  predicate PhoneAcceptable(row: Row) {
    && HasField(row, "Phone")
    && var phone := StripSpaces(row["Phone"]);
       && PhoneMinLength <= Utf16Length(phone) <= PhoneMaxLength
       && MatchesPhonePattern(phone)
  }

  /** The notes rule: absent, empty, or at most 500 code units before trimming. */
  predicate NotesAcceptable(row: Row) {
    HasField(row, "Notes") ==> Utf16Length(row["Notes"]) <= NotesMaxLength
  }

  /** The row's phone, without whitespace, was seen before. */
  predicate IsDuplicate(row: Row, seen: set<string>) {
    HasField(row, "Phone") && StripSpaces(row["Phone"]) in seen
  }

  /** `rest` with `e` in front when `failed`: one `errors.push` of the source,
      in list order. */
  function ErrorIf(failed: bool, e: RowError, rest: seq<RowError>): seq<RowError> {
    if failed then [e] + rest else rest
  }

  lemma ErrorIfSpec(failed: bool, e: RowError, rest: seq<RowError>)
    ensures forall x :: x in ErrorIf(failed, e, rest) <==> (failed && x == e) || x in rest
    ensures ErrorIf(failed, e, rest) == [] <==> !failed && rest == []
  {
  }

  /** The length and pattern checks on the trimmed name. */
  function NameFormatErrors(name: string): seq<RowError> {
    ErrorIf(Utf16Length(name) < NameMinLength, FirstNameTooShort,
    ErrorIf(Utf16Length(name) > NameMaxLength, FirstNameTooLong,
    ErrorIf(!MatchesNamePattern(name), FirstNameInvalidChars, [])))
  }

  /** The format checks on a name raise only name-format errors, each
      exactly when its rule is broken. */
  lemma NameFormatErrorsEach(name: string)
    ensures var es := NameFormatErrors(name);
      forall e :: e in es ==> e.FirstNameTooShort? || e.FirstNameTooLong? || e.FirstNameInvalidChars?
    ensures FirstNameTooShort in NameFormatErrors(name) <==> Utf16Length(name) < NameMinLength
    ensures FirstNameTooLong in NameFormatErrors(name) <==> Utf16Length(name) > NameMaxLength
    ensures FirstNameInvalidChars in NameFormatErrors(name) <==> !MatchesNamePattern(name)
  {
    var r3 := ErrorIf(!MatchesNamePattern(name), FirstNameInvalidChars, []);
    var r2 := ErrorIf(Utf16Length(name) > NameMaxLength, FirstNameTooLong, r3);
    ErrorIfSpec(!MatchesNamePattern(name), FirstNameInvalidChars, []);
    ErrorIfSpec(Utf16Length(name) > NameMaxLength, FirstNameTooLong, r3);
    ErrorIfSpec(Utf16Length(name) < NameMinLength, FirstNameTooShort, r2);
  }

  /** ... and none exactly when the length and character rules hold. */
  lemma NameFormatErrorsSpec(name: string)
    ensures var es := NameFormatErrors(name);
      FirstNameRequired !in es && PhoneRequired !in es && DuplicatePhone !in es && NotesTooLong !in es
    ensures NameFormatErrors(name) == [] <==>
      NameMinLength <= Utf16Length(name) <= NameMaxLength && forall i :: 0 <= i < |name| ==> NameChar(name[i])
  {
    var r3 := ErrorIf(!MatchesNamePattern(name), FirstNameInvalidChars, []);
    var r2 := ErrorIf(Utf16Length(name) > NameMaxLength, FirstNameTooLong, r3);
    var n := Utf16Length(name);
    assert NameMinLength <= n ==> |name| > 0;
    ErrorIfSpec(!MatchesNamePattern(name), FirstNameInvalidChars, []);
    ErrorIfSpec(Utf16Length(name) > NameMaxLength, FirstNameTooLong, r3);
    ErrorIfSpec(Utf16Length(name) < NameMinLength, FirstNameTooShort, r2);
  }

  /** The FirstName checks: all three length and pattern checks run. */
  function NameErrors(row: Row): seq<RowError> {
    if !HasField(row, "FirstName") then [FirstNameRequired]
    else NameFormatErrors(Trim(row["FirstName"]))
  }

  lemma NameErrorsSpec(row: Row)
    ensures var es := NameErrors(row); forall e :: e in es ==> IsNameError(e)
    ensures NameErrors(row) == [] <==> NameAcceptable(row)
    ensures FirstNameRequired in NameErrors(row) <==> !HasField(row, "FirstName")
    ensures FirstNameTooShort in NameErrors(row) <==>
      HasField(row, "FirstName") && Utf16Length(Trim(row["FirstName"])) < NameMinLength
    ensures FirstNameTooLong in NameErrors(row) <==>
      HasField(row, "FirstName") && Utf16Length(Trim(row["FirstName"])) > NameMaxLength
    ensures FirstNameInvalidChars in NameErrors(row) <==>
      HasField(row, "FirstName") && !MatchesNamePattern(Trim(row["FirstName"]))
  {
    if HasField(row, "FirstName") {
      NameFormatErrorsSpec(Trim(row["FirstName"]));
      NameFormatErrorsEach(Trim(row["FirstName"]));
    }
  }

  /** The length and pattern checks on the normalised phone. */
  function PhoneFormatErrors(phone: string): seq<RowError> {
    ErrorIf(Utf16Length(phone) < PhoneMinLength, PhoneTooShort,
    ErrorIf(Utf16Length(phone) > PhoneMaxLength, PhoneTooLong,
    ErrorIf(!MatchesPhonePattern(phone), PhoneInvalidChars, [])))
  }

  /** The format checks on a phone raise only phone-format errors, each
      exactly when its rule is broken. */
  lemma PhoneFormatErrorsEach(phone: string)
    ensures var es := PhoneFormatErrors(phone);
      forall e :: e in es ==> e.PhoneTooShort? || e.PhoneTooLong? || e.PhoneInvalidChars?
    ensures PhoneTooShort in PhoneFormatErrors(phone) <==> Utf16Length(phone) < PhoneMinLength
    ensures PhoneTooLong in PhoneFormatErrors(phone) <==> Utf16Length(phone) > PhoneMaxLength
    ensures PhoneInvalidChars in PhoneFormatErrors(phone) <==> !MatchesPhonePattern(phone)
  {
    var r3 := ErrorIf(!MatchesPhonePattern(phone), PhoneInvalidChars, []);
    var r2 := ErrorIf(Utf16Length(phone) > PhoneMaxLength, PhoneTooLong, r3);
    ErrorIfSpec(!MatchesPhonePattern(phone), PhoneInvalidChars, []);
    ErrorIfSpec(Utf16Length(phone) > PhoneMaxLength, PhoneTooLong, r3);
    ErrorIfSpec(Utf16Length(phone) < PhoneMinLength, PhoneTooShort, r2);
  }

  /** ... and none exactly when the length and pattern rules hold. */
  lemma PhoneFormatErrorsSpec(phone: string)
    ensures var es := PhoneFormatErrors(phone);
      FirstNameRequired !in es && PhoneRequired !in es && DuplicatePhone !in es && NotesTooLong !in es
    ensures PhoneFormatErrors(phone) == [] <==>
      PhoneMinLength <= Utf16Length(phone) <= PhoneMaxLength && MatchesPhonePattern(phone)
  {
    var r3 := ErrorIf(!MatchesPhonePattern(phone), PhoneInvalidChars, []);
    var r2 := ErrorIf(Utf16Length(phone) > PhoneMaxLength, PhoneTooLong, r3);
    ErrorIfSpec(!MatchesPhonePattern(phone), PhoneInvalidChars, []);
    ErrorIfSpec(Utf16Length(phone) > PhoneMaxLength, PhoneTooLong, r3);
    ErrorIfSpec(Utf16Length(phone) < PhoneMinLength, PhoneTooShort, r2);
  }

  /** The Phone checks, the duplicate check last. */
  function PhoneErrors(row: Row, seen: set<string>): seq<RowError> {
    if !HasField(row, "Phone") then [PhoneRequired]
    else
      var phone := NormalizePhone(row["Phone"]);
      PhoneFormatErrors(phone) + ErrorIf(phone in seen, DuplicatePhone, [])
  }

  lemma PhoneErrorsSpec(row: Row, seen: set<string>)
    ensures var es := PhoneErrors(row, seen); forall e :: e in es ==> IsPhoneError(e)
    ensures PhoneTooShort in PhoneErrors(row, seen) <==>
      HasField(row, "Phone") && Utf16Length(StripSpaces(row["Phone"])) < PhoneMinLength
    ensures PhoneTooLong in PhoneErrors(row, seen) <==>
      HasField(row, "Phone") && Utf16Length(StripSpaces(row["Phone"])) > PhoneMaxLength
    ensures PhoneInvalidChars in PhoneErrors(row, seen) <==>
      HasField(row, "Phone") && !MatchesPhonePattern(StripSpaces(row["Phone"]))
    ensures PhoneErrors(row, seen) == [] <==> PhoneAcceptable(row) && !IsDuplicate(row, seen)
    ensures PhoneRequired in PhoneErrors(row, seen) <==> !HasField(row, "Phone")
    ensures DuplicatePhone in PhoneErrors(row, seen) <==> IsDuplicate(row, seen)
  {
    if HasField(row, "Phone") {
      var phone := NormalizePhone(row["Phone"]);
      NormalizePhoneSpec(row["Phone"]);
      PhoneFormatErrorsSpec(phone);
      PhoneFormatErrorsEach(phone);
      ErrorIfSpec(phone in seen, DuplicatePhone, []);
    }
  }

  /** The Notes check, on the untrimmed cell. */
  function NotesErrors(row: Row): seq<RowError> {
    ErrorIf(HasField(row, "Notes") && Utf16Length(row["Notes"]) > NotesMaxLength, NotesTooLong, [])
  }

  lemma NotesErrorsSpec(row: Row)
    ensures var es := NotesErrors(row); forall e :: e in es ==> e.NotesTooLong?
    ensures NotesErrors(row) == [] <==> NotesAcceptable(row)
    ensures NotesTooLong in NotesErrors(row) <==> !NotesAcceptable(row)
  {
    ErrorIfSpec(HasField(row, "Notes") && Utf16Length(row["Notes"]) > NotesMaxLength, NotesTooLong, []);
  }

  /** The seen-set after the row: the normalised phone is added unless it
      was already there. */
  function SeenAfter(row: Row, seen: set<string>): set<string> {
    if HasField(row, "Phone") && NormalizePhone(row["Phone"]) !in seen
    then seen + {NormalizePhone(row["Phone"])}
    else seen
  }

  /** Either way the seen-set ends up holding the row's phone, so the
      membership test before the insertion changes nothing. */
  lemma SeenAfterSpec(row: Row, seen: set<string>)
    ensures SeenAfter(row, seen) == if HasField(row, "Phone") then seen + {StripSpaces(row["Phone"])} else seen
  {
    if HasField(row, "Phone") {
      NormalizePhoneSpec(row["Phone"]);
      assert StripSpaces(row["Phone"]) in seen ==> seen + {StripSpaces(row["Phone"])} == seen;
    }
  }

  /** `validateTaskData(record, existingPhoneNumbers)`: the verdict on the
      row, and the seen-set as the call leaves it. */
  function ValidateRow(row: Row, seen: set<string>): (RowVerdict, set<string>) {
    var errors := NameErrors(row) + PhoneErrors(row, seen) + NotesErrors(row);
    var sanitized := Sanitized(
      Trim(FieldOr(row, "FirstName")),
      NormalizePhone(FieldOr(row, "Phone")),
      Trim(FieldOr(row, "Notes")));
    (RowVerdict(|errors| == 0, errors, sanitized), SeenAfter(row, seen))
  }

  /** A row passes exactly when it has no errors, and that is exactly when
      all four rules hold; the phone joins the seen-set whether or not the
      row passes; the stored record is the trimmed name and notes and the
      phone without whitespace. */
  lemma ValidateRowSpec(row: Row, seen: set<string>)
    ensures var out := ValidateRow(row, seen);
      && (out.0.isValid <==> out.0.errors == [])
      && (out.0.isValid <==>
            NameAcceptable(row) && PhoneAcceptable(row) && !IsDuplicate(row, seen) && NotesAcceptable(row))
      && out.1 == (if HasField(row, "Phone") then seen + {StripSpaces(row["Phone"])} else seen)
      && out.0.sanitized ==
           Sanitized(Trim(FieldOr(row, "FirstName")), StripSpaces(FieldOr(row, "Phone")), Trim(FieldOr(row, "Notes")))
  {
    var nameErrors, phoneErrors, notesErrors := NameErrors(row), PhoneErrors(row, seen), NotesErrors(row);
    NameErrorsSpec(row);
    PhoneErrorsSpec(row, seen);
    NotesErrorsSpec(row);
    assert nameErrors + phoneErrors + notesErrors == [] <==> nameErrors == [] && phoneErrors == [] && notesErrors == [];
    SeenAfterSpec(row, seen);
    NormalizePhoneSpec(FieldOr(row, "Phone"));
  }

  /** The row's errors list the name errors, then the phone errors, then
      the notes error. */
  lemma ErrorsInCheckOrder(row: Row, seen: set<string>)
    ensures ValidateRow(row, seen).0.errors == NameErrors(row) + PhoneErrors(row, seen) + NotesErrors(row)
  {
  }

  /** Each group of checks raises only its own kind of error. */
  lemma ErrorKinds(row: Row, seen: set<string>)
    ensures forall e :: e in NameErrors(row) ==> IsNameError(e)
    ensures forall e :: e in PhoneErrors(row, seen) ==> IsPhoneError(e)
    ensures forall e :: e in NotesErrors(row) ==> e.NotesTooLong?
  {
    if HasField(row, "FirstName") {
      NameFormatErrorsEach(Trim(row["FirstName"]));
    }
    if HasField(row, "Phone") {
      var phone := NormalizePhone(row["Phone"]);
      PhoneFormatErrorsEach(phone);
      ErrorIfSpec(phone in seen, DuplicatePhone, []);
    }
    ErrorIfSpec(HasField(row, "Notes") && Utf16Length(row["Notes"]) > NotesMaxLength, NotesTooLong, []);
  }

  /** An error is on the row exactly when the group of checks that can
      raise it raised it. */
  lemma ErrorOnRow(row: Row, seen: set<string>, e: RowError)
    ensures e in ValidateRow(row, seen).0.errors <==>
      if IsNameError(e) then e in NameErrors(row)
      else if IsPhoneError(e) then e in PhoneErrors(row, seen)
      else e in NotesErrors(row)
  {
    ErrorKinds(row, seen);
    ErrorsInCheckOrder(row, seen);
  }

  /** Each FirstName error is on the row exactly when its rule is broken. */
  lemma NameErrorsOnRow(row: Row, seen: set<string>)
    ensures var es := ValidateRow(row, seen).0.errors;
      && (FirstNameRequired in es <==> !HasField(row, "FirstName"))
      && (FirstNameTooShort in es <==>
            HasField(row, "FirstName") && Utf16Length(Trim(row["FirstName"])) < NameMinLength)
      && (FirstNameTooLong in es <==>
            HasField(row, "FirstName") && Utf16Length(Trim(row["FirstName"])) > NameMaxLength)
      && (FirstNameInvalidChars in es <==>
            HasField(row, "FirstName") && !MatchesNamePattern(Trim(row["FirstName"])))
  {
    NameErrorsSpec(row);
    ErrorOnRow(row, seen, FirstNameRequired);
    ErrorOnRow(row, seen, FirstNameTooShort);
    ErrorOnRow(row, seen, FirstNameTooLong);
    ErrorOnRow(row, seen, FirstNameInvalidChars);
  }

  /** Each Phone error is on the row exactly when its rule is broken. */
  lemma PhoneErrorsOnRow(row: Row, seen: set<string>)
    ensures var es := ValidateRow(row, seen).0.errors;
      && (PhoneRequired in es <==> !HasField(row, "Phone"))
      && (PhoneTooShort in es <==>
            HasField(row, "Phone") && Utf16Length(StripSpaces(row["Phone"])) < PhoneMinLength)
      && (PhoneTooLong in es <==>
            HasField(row, "Phone") && Utf16Length(StripSpaces(row["Phone"])) > PhoneMaxLength)
      && (PhoneInvalidChars in es <==>
            HasField(row, "Phone") && !MatchesPhonePattern(StripSpaces(row["Phone"])))
      && (DuplicatePhone in es <==> IsDuplicate(row, seen))
  {
    PhoneErrorsSpec(row, seen);
    ErrorOnRow(row, seen, PhoneRequired);
    ErrorOnRow(row, seen, PhoneTooShort);
    ErrorOnRow(row, seen, PhoneTooLong);
    ErrorOnRow(row, seen, PhoneInvalidChars);
    ErrorOnRow(row, seen, DuplicatePhone);
  }

  /** Every rule that a row breaks puts its own error on the row: the checks
      do not stop at the first failure. */
  lemma RowErrorsFlagEachRule(row: Row, seen: set<string>)
    ensures var es := ValidateRow(row, seen).0.errors;
      && (FirstNameRequired in es <==> !HasField(row, "FirstName"))
      && (PhoneRequired in es <==> !HasField(row, "Phone"))
      && (DuplicatePhone in es <==> IsDuplicate(row, seen))
      && (NotesTooLong in es <==> !NotesAcceptable(row))
    ensures var es := ValidateRow(row, seen).0.errors;
      && (FirstNameTooShort in es <==>
            HasField(row, "FirstName") && Utf16Length(Trim(row["FirstName"])) < NameMinLength)
      && (FirstNameTooLong in es <==>
            HasField(row, "FirstName") && Utf16Length(Trim(row["FirstName"])) > NameMaxLength)
      && (FirstNameInvalidChars in es <==>
            HasField(row, "FirstName") && !MatchesNamePattern(Trim(row["FirstName"])))
    ensures var es := ValidateRow(row, seen).0.errors;
      && (PhoneTooShort in es <==>
            HasField(row, "Phone") && Utf16Length(StripSpaces(row["Phone"])) < PhoneMinLength)
      && (PhoneTooLong in es <==>
            HasField(row, "Phone") && Utf16Length(StripSpaces(row["Phone"])) > PhoneMaxLength)
      && (PhoneInvalidChars in es <==>
            HasField(row, "Phone") && !MatchesPhonePattern(StripSpaces(row["Phone"])))
  {
    NameErrorsOnRow(row, seen);
    PhoneErrorsOnRow(row, seen);
    NotesErrorsSpec(row);
    ErrorOnRow(row, seen, NotesTooLong);
  }

  lemma DigitIsNeitherLetterNorSpace(c: char)
    requires IsDigit(c)
    ensures !NameChar(c) && !IsSpace(c)
  {
  }

  /** A name with a digit in it, and no whitespace at its ends, fails the
      pattern check. */
  lemma DigitInNameFlagged(row: Row, name: string)
    requires "FirstName" in row && row["FirstName"] == name
    requires |name| > 0 && !IsSpace(name[0]) && !IsSpace(name[|name| - 1])
    requires exists i :: 0 <= i < |name| && IsDigit(name[i])
    ensures FirstNameInvalidChars in NameErrors(row)
    ensures |NameErrors(row)| > 0 && NameErrors(row)[|NameErrors(row)| - 1] == FirstNameInvalidChars
  {
    TrimUntouched(name);
    var i :| 0 <= i < |name| && IsDigit(name[i]);
    DigitIsNeitherLetterNorSpace(name[i]);
  }

  /** A phone of five digits is too short. */
  lemma FiveDigitPhoneFlagged(row: Row, phone: string)
    requires "Phone" in row && row["Phone"] == phone
    requires |phone| == 5 && forall i :: 0 <= i < |phone| ==> IsDigit(phone[i])
    ensures PhoneTooShort in PhoneErrors(row, {})
  {
    PhoneIsOnlyTooShort(row, phone);
  }

  /** A digit in the name, a phone of five digits and 501 characters of
      notes draw one error each, all three on the same row, and they close
      the list in check order: name, then phone, then notes. */
  lemma SeveralErrorsOnOneRow(row: Row, name: string, phone: string)
    requires "FirstName" in row && row["FirstName"] == name
    requires |name| > 0 && !IsSpace(name[0]) && !IsSpace(name[|name| - 1])
    requires exists i :: 0 <= i < |name| && IsDigit(name[i])
    requires "Phone" in row && row["Phone"] == phone
    requires |phone| == 5 && forall i :: 0 <= i < |phone| ==> IsDigit(phone[i])
    requires "Notes" in row && |row["Notes"]| == 501
    ensures var errors := ValidateRow(row, {}).0.errors;
      && FirstNameInvalidChars in errors
      && PhoneTooShort in errors
      && NotesTooLong in errors
    ensures var errors := ValidateRow(row, {}).0.errors;
      |errors| >= 3 && errors[|errors| - 3..] == [FirstNameInvalidChars, PhoneTooShort, NotesTooLong]
  {
    DigitInNameFlagged(row, name);
    PhoneIsOnlyTooShort(row, phone);
    assert NotesErrors(row) == [NotesTooLong];
    ErrorsInCheckOrder(row, {});
    EndsWithThree(NameErrors(row), ValidateRow(row, {}).0.errors);
  }

  lemma EndsWithThree(names: seq<RowError>, errors: seq<RowError>)
    requires |names| > 0 && names[|names| - 1] == FirstNameInvalidChars
    requires errors == names + [PhoneTooShort] + [NotesTooLong]
    ensures FirstNameInvalidChars in errors && PhoneTooShort in errors && NotesTooLong in errors
    ensures |errors| >= 3 && errors[|errors| - 3..] == [FirstNameInvalidChars, PhoneTooShort, NotesTooLong]
  {
    assert errors[|errors| - 3] == FirstNameInvalidChars;
  }

  /** The five-digit phone draws only the length error. */
  lemma PhoneIsOnlyTooShort(row: Row, phone: string)
    requires "Phone" in row && row["Phone"] == phone
    requires |phone| == 5 && forall i :: 0 <= i < |phone| ==> IsDigit(phone[i])
    ensures PhoneErrors(row, {}) == [PhoneTooShort]
  {
    forall j | 0 <= j < |phone|
      ensures !IsSpace(phone[j]) && phone[j] as int <= 0xFFFF && PhoneChar(phone[j])
    {
      DigitIsNeitherLetterNorSpace(phone[j]);
    }
    StripSpacesUntouched(phone);
    Utf16LengthOfBmp(phone);
    NormalizePhoneSpec(phone);
    assert MatchesPhonePattern(phone);
  }
}
