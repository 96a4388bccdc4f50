/**
 * The input validators of utils/validators.py. Each returns the pair
 * `(is_valid, error_message)`; the message is empty exactly on acceptance.
 */
module Validators {
  import opened Text
  import opened Wrappers

  datatype Verdict = Verdict(valid: bool, message: string)

  const Accept := Verdict(true, "")

  function Reject(message: string): Verdict
    requires message != ""
  {
    Verdict(false, message)
  }

  /** `(True, "")` on acceptance, `(False, <non-empty reason>)` otherwise. */
  predicate WellFormed(r: Verdict) {
    r.valid <==> r.message == ""
  }

  // ---------------------------------------------------------------- email

  /** `[a-zA-Z0-9._%+-]`, the characters of the part before '@'. */
  predicate IsLocalChar(c: char) {
    IsAsciiAlnum(c) || c == '.' || c == '_' || c == '%' || c == '+' || c == '-'
  }

  /** `[a-zA-Z0-9.-]`, the characters of the domain before its last '.'. */
  predicate IsDomainChar(c: char) {
    IsAsciiAlnum(c) || c == '.' || c == '-'
  }

  /**
   * `s` splits as `local '@' domain '.' tld`, with the '@' at `at` and the
   * final '.' at `dot`, as `[a-zA-Z0-9._%+-]+@[a-zA-Z0-9.-]+\.[a-zA-Z]{2,}`
   * demands of the whole of `s`.
   */
  predicate EmailSplit(s: string, at: int, dot: int) {
    && 0 < at && at + 1 < dot && dot + 3 <= |s|
    && s[at] == '@' && s[dot] == '.'
    && (forall i :: 0 <= i < at ==> IsLocalChar(s[i]))
    && (forall i :: at < i < dot ==> IsDomainChar(s[i]))
    && (forall i :: dot < i < |s| ==> IsAsciiLetter(s[i]))
  }

  /** The whole of `s` matches the email pattern. */
  ghost predicate MatchesEmailPattern(s: string) {
    exists at, dot :: EmailSplit(s, at, dot)
  }

  /**
   * `re.match(pattern, s)` with the pattern anchored by `^` and `$`; Python's
   * `$` also matches just before one newline that ends the string.
   */
  ghost predicate EmailPatternAccepts(s: string) {
    MatchesEmailPattern(s) || (|s| > 0 && s[|s| - 1] == '\n' && MatchesEmailPattern(s[..|s| - 1]))
  }

  /** Decides the pattern by splitting at the first '@' and the last '.'. */
  function EmailShape(s: string): (b: bool)
    ensures b <==> MatchesEmailPattern(s)
  {
    var at := FirstIndexOf(s, '@');
    var dot := LastIndexOf(s, '.');
    var b := EmailSplit(s, at, dot);
    assert b ==> MatchesEmailPattern(s);
    assert MatchesEmailPattern(s) ==> b by {
      if MatchesEmailPattern(s) {
        var a, d :| EmailSplit(s, a, d);
        assert !IsLocalChar('@') && !IsAsciiLetter('.');
        assert at == a;
        assert dot == d;
      }
    }
    b
  }

  const EmailEmptyMessage := "Email cannot be empty"
  const EmailInvalidMessage := "Invalid email format"

  function ValidateEmail(email: string): (r: Verdict)
    ensures WellFormed(r)
    ensures email == "" ==> r == Verdict(false, EmailEmptyMessage)
    ensures r.valid <==> email != "" && EmailPatternAccepts(email)
    ensures email != "" && !r.valid ==> r.message == EmailInvalidMessage
  {
    if email == [] then Reject(EmailEmptyMessage)
    else if EmailShape(email)
      || (email[|email| - 1] == '\n' && EmailShape(email[..|email| - 1]))
    then Accept
    else Reject(EmailInvalidMessage)
  }

  /** A split email has exactly one '@', and it sits at the split point. */
  lemma EmailSplitOneAt(s: string, at: int, dot: int)
    requires EmailSplit(s, at, dot)
    ensures Occurrences(s, '@') == 1
    ensures FirstIndexOf(s, '@') == at
  {
    assert s == s[..at] + [s[at]] + s[at + 1..];
    assert !IsLocalChar('@') && !IsDomainChar('@') && !IsAsciiLetter('@');
    OccurrencesNone(s[..at], '@');
    OccurrencesNone(s[at + 1..], '@');
    OccurrencesAppend(s[..at] + [s[at]], s[at + 1..], '@');
    OccurrencesAppend(s[..at], [s[at]], '@');
  }

  /**
   * An accepted email holds exactly one '@', and what precedes it is a
   * non-empty run of local characters.
   */
  lemma AcceptedEmailOneAt(email: string)
    requires ValidateEmail(email).valid
    ensures Occurrences(email, '@') == 1
    ensures 0 < FirstIndexOf(email, '@')
    ensures forall i :: 0 <= i < FirstIndexOf(email, '@') ==> IsLocalChar(email[i])
  {
    assert EmailPatternAccepts(email);
    if MatchesEmailPattern(email) {
      var at, dot :| EmailSplit(email, at, dot);
      EmailSplitOneAt(email, at, dot);
    } else {
      var e := email[..|email| - 1];
      var at, dot :| EmailSplit(e, at, dot);
      EmailSplitOneAt(e, at, dot);
      NewlineSuffix(email, e, at);
    }
  }

  lemma NewlineSuffix(email: string, e: string, at: int)
    requires |email| > 0 && e == email[..|email| - 1] && email[|email| - 1] == '\n'
    requires Occurrences(e, '@') == 1 && 0 < at == FirstIndexOf(e, '@')
    requires forall i :: 0 <= i < at ==> IsLocalChar(e[i])
    ensures Occurrences(email, '@') == 1
    ensures FirstIndexOf(email, '@') == at
    ensures forall i :: 0 <= i < at ==> IsLocalChar(email[i])
  {
    assert email == e + "\n";
    OccurrencesAppend(e, "\n", '@');
    assert email[at] == '@';
    forall i | 0 <= i < at ensures email[i] != '@' {
      assert email[i] == e[i];
    }
  }

  // ---------------------------------------------------------------- roll number

  const RollNoEmptyMessage := "Roll number cannot be empty"
  const RollNoShortMessage := "Roll number too short"
  const RollNoCharsMessage := "Roll number should contain only letters, numbers, hyphens, or slashes"

  function ValidateRollNo(rollNo: string): (r: Verdict)
    ensures WellFormed(r)
    ensures rollNo == "" ==> r.message == RollNoEmptyMessage
    ensures 0 < |rollNo| < 3 ==> r.message == RollNoShortMessage
    ensures |rollNo| >= 3 && !r.valid ==>
      r.message == RollNoCharsMessage
  {
    if rollNo == [] then Reject(RollNoEmptyMessage)
    else if |rollNo| < 3 then Reject(RollNoShortMessage)
    else if !IsAlnum(RemoveChar(RemoveChar(rollNo, '-'), '/'))
    then Reject(RollNoCharsMessage)
    else Accept
  }

  /**
   * The shape of a roll number: at least 3 characters, each a letter, a
   * digit, '-' or '/', and at least one a letter or digit.
   */
  predicate RollNoShape(rollNo: string) {
    && |rollNo| >= 3
    && (forall i :: 0 <= i < |rollNo| ==> IsAsciiAlnum(rollNo[i]) || rollNo[i] == '-' || rollNo[i] == '/')
    && (exists i :: 0 <= i < |rollNo| && IsAsciiAlnum(rollNo[i]))
  }

  /** A roll number is accepted exactly when it has the shape of one. */
  lemma RollNoAcceptedIff(rollNo: string)
    ensures ValidateRollNo(rollNo).valid <==> RollNoShape(rollNo)
  {
    if ValidateRollNo(rollNo).valid {
      AcceptedRollNoChars(rollNo);
    }
    if RollNoShape(rollNo) {
      RollNoCharsAccepted(rollNo);
    }
  }

  /** An accepted roll number has the shape of one. */
  lemma AcceptedRollNoChars(rollNo: string)
    requires ValidateRollNo(rollNo).valid
    ensures RollNoShape(rollNo)
  {
    var kept := RemoveChar(RemoveChar(rollNo, '-'), '/');
    forall i | 0 <= i < |rollNo| && rollNo[i] != '-' && rollNo[i] != '/'
      ensures IsAsciiAlnum(rollNo[i])
    {
      assert rollNo[i] in rollNo;
      assert rollNo[i] in kept;
    }
    assert kept[0] in kept;
    var j :| 0 <= j < |rollNo| && rollNo[j] == kept[0];
  }

  /** A string of roll-number shape keeps a non-empty run of letters and digits once the separators go. */
  lemma RollNoCharsAccepted(rollNo: string)
    requires RollNoShape(rollNo)
    ensures IsAlnum(RemoveChar(RemoveChar(rollNo, '-'), '/'))
  {
    var kept := RemoveChar(RemoveChar(rollNo, '-'), '/');
    var i :| 0 <= i < |rollNo| && IsAsciiAlnum(rollNo[i]);
    assert rollNo[i] in rollNo;
    assert rollNo[i] in kept;
    forall k | 0 <= k < |kept| ensures IsAsciiAlnum(kept[k]) {
      assert kept[k] in kept;
      var j :| 0 <= j < |rollNo| && rollNo[j] == kept[k];
    }
  }

  /**
   * No string is both an accepted roll number and an accepted email: an
   * email holds an '@', which a roll number may not.
   */
  lemma RollNoIsNeverEmail(s: string)
    requires ValidateRollNo(s).valid
    ensures !ValidateEmail(s).valid
  {
    RollNoAcceptedIff(s);
    if ValidateEmail(s).valid {
      AcceptedEmailOneAt(s);
    }
  }

  /** Separators alone never make a roll number. */
  lemma RollNoSeparatorsOnly()
    ensures !ValidateRollNo("---").valid
    ensures !ValidateRollNo("/-/").valid
  {
    RollNoAcceptedIff("---");
    RollNoAcceptedIff("/-/");
  }

  // ---------------------------------------------------------------- name

  const NameEmptyMessage := "Name cannot be empty"
  const NameShortMessage := "Name too short"
  const NameLongMessage := "Name too long"

  function ValidateName(name: string): (r: Verdict)
    ensures WellFormed(r)
    ensures r.valid <==>
      (exists i :: 0 <= i < |name| && !IsSpace(name[i])) && |Strip(name)| >= 2 && |name| <= 100
    ensures (forall i :: 0 <= i < |name| ==> IsSpace(name[i])) ==> r.message == NameEmptyMessage
    ensures (exists i :: 0 <= i < |name| && !IsSpace(name[i])) && |Strip(name)| < 2 ==> r.message == NameShortMessage
    ensures |Strip(name)| >= 2 && |name| > 100 ==> r.message == NameLongMessage
  {
    StripEmptyIff(name);
    if name == [] || Strip(name) == [] then Reject(NameEmptyMessage)
    else if |Strip(name)| < 2 then Reject(NameShortMessage)
    else if |name| > 100 then Reject(NameLongMessage)
    else Accept
  }

  // ---------------------------------------------------------------- file name

  /** The characters a file name may not contain, in the order they are checked. */
  const InvalidFileNameChars: seq<char> := ['<', '>', ':', '"', '|', '?', '*']

  /** The first of `chars`, in list order, that occurs in `name`. */
  function FirstPresent(chars: seq<char>, name: string): (r: Option<nat>)
    ensures r.None? <==> forall k :: 0 <= k < |chars| ==> chars[k] !in name
    ensures r.Some? ==>
      (&& r.value < |chars| && chars[r.value] in name
       && forall k :: 0 <= k < r.value ==> chars[k] !in name)
  {
    if chars == [] then None
    else if chars[0] in name then Some(0)
    else match FirstPresent(chars[1..], name)
      case None => None
      case Some(k) => Some(k + 1)
  }

  const FileNameEmptyMessage := "File name cannot be empty"
  const FileNameCharMessage := "File name contains invalid character: "
  const FileNameExtensionMessage := "File name should have an extension"

  function ValidateFileName(fileName: string): (r: Verdict)
    ensures WellFormed(r)
    ensures r.valid <==>
      && fileName != ""
      && (forall c :: c in InvalidFileNameChars ==> c !in fileName)
      && '.' in fileName
    ensures fileName == "" ==> r.message == FileNameEmptyMessage
    ensures forall k ::
      (&& 0 <= k < |InvalidFileNameChars|
       && fileName != ""
       && InvalidFileNameChars[k] in fileName
       && (forall j :: 0 <= j < k ==> InvalidFileNameChars[j] !in fileName))
      ==> r.message == FileNameCharMessage + [InvalidFileNameChars[k]]
    ensures fileName != "" && (forall c :: c in InvalidFileNameChars ==> c !in fileName) && '.' !in fileName
      ==> r.message == FileNameExtensionMessage
  {
    if fileName == [] then Reject(FileNameEmptyMessage)
    else match FirstPresent(InvalidFileNameChars, fileName)
      case Some(k) => Reject(FileNameCharMessage + [InvalidFileNameChars[k]])
      case None =>
        if '.' !in fileName then Reject(FileNameExtensionMessage) else Accept
  }

  // ---------------------------------------------------------------- description

  const DescriptionEmptyMessage := "Description cannot be empty"
  const DescriptionShortMessage := "Description too short (minimum "
  const DescriptionLongMessage := "Description too long (maximum "
  const DescriptionLimitEnd := " characters)"

  function ValidateDescription(description: string, minLength: int := 10, maxLength: int := 500): (r: Verdict)
    ensures WellFormed(r)
    ensures r.valid <==> Strip(description) != [] && minLength <= |Strip(description)| <= maxLength
    ensures Strip(description) == [] ==> r.message == DescriptionEmptyMessage
    ensures Strip(description) != [] && |Strip(description)| < minLength ==>
      r.message == DescriptionShortMessage + IntToDecimal(minLength) + DescriptionLimitEnd
    ensures Strip(description) != [] && minLength <= |Strip(description)| && |Strip(description)| > maxLength ==>
      r.message == DescriptionLongMessage + IntToDecimal(maxLength) + DescriptionLimitEnd
  {
    StripEmptyIff(description);
    if description == [] || Strip(description) == [] then Reject(DescriptionEmptyMessage)
    else if |Strip(description)| < minLength
    then Reject(DescriptionShortMessage + IntToDecimal(minLength) + DescriptionLimitEnd)
    else if |Strip(description)| > maxLength
    then Reject(DescriptionLongMessage + IntToDecimal(maxLength) + DescriptionLimitEnd)
    else Accept
  }

  /** With the default bounds, acceptance is exactly a stripped length in [10, 500]. */
  lemma DescriptionDefaultBounds(description: string)
    ensures ValidateDescription(description).valid <==> 10 <= |Strip(description)| <= 500
  {
  }

  // ---------------------------------------------------------------- category

  const CategoryEmptyMessage := "Category cannot be empty"
  const CategoryInvalidMessage := "Invalid category. Must be one of: "

  function ValidateCategory(category: string, validCategories: seq<string>): (r: Verdict)
    ensures WellFormed(r)
    ensures r.valid <==> category != "" && category in validCategories
    ensures category == "" ==> r.message == CategoryEmptyMessage
    ensures category != "" && category !in validCategories ==>
      r.message == CategoryInvalidMessage + Join(", ", validCategories)
  {
    if category == [] then Reject(CategoryEmptyMessage)
    else if category !in validCategories
    then Reject(CategoryInvalidMessage + Join(", ", validCategories))
    else Accept
  }
}
