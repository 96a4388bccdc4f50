/**
 * The string and scoring helpers of utils/helpers.py that do not depend on
 * the clock: truncation, file-name sanitising, status colours, the integer
 * score behind the match percentage, relative-date text on a day count and
 * number formatting below one thousand.
 */
module Helpers {
  import opened Text
  import opened Wrappers

  // ---------------------------------------------------------------- truncate_text

  /** `truncate_text`: `text[:max_length - len(suffix)] + suffix` once `text` is too long. */
  function TruncateText(text: string, maxLength: int := 50, suffix: string := "..."): (r: string)
    ensures |text| <= maxLength ==> r == text
    ensures |text| > maxLength && maxLength >= |suffix| ==>
      && |r| == maxLength
      && r[..maxLength - |suffix|] == text[..maxLength - |suffix|]
      && r[maxLength - |suffix|..] == suffix
  {
    if |text| <= maxLength then text
    else SliceTo(text, maxLength - |suffix|) + suffix
  }

  /** With room for the suffix, truncating a truncated text changes nothing. */
  lemma TruncateIdempotent(text: string, maxLength: int, suffix: string)
    requires maxLength >= |suffix|
    ensures TruncateText(TruncateText(text, maxLength, suffix), maxLength, suffix)
         == TruncateText(text, maxLength, suffix)
  {
  }

  /**
   * When `max_length` is below the suffix length, the slice bound is negative
   * and Python counts it from the end: the "truncated" text is longer than
   * `max_length`, and can even be longer than the input.
   */
  lemma TruncateBelowSuffixLength()
    ensures TruncateText("abcdef", 2) == "abcde..."
    ensures |TruncateText("abcdef", 2)| > |"abcdef"|
  {
    assert SliceTo("abcdef", -1) == "abcde";
  }

  // ---------------------------------------------------------------- sanitize_filename

  /** The characters `sanitize_filename` replaces, in the order it replaces them. */
  const InvalidFileChars: string := "<>:\"|?*"

  /** The file name with every character of `InvalidFileChars` turned into '_'. */
  function Sanitized(filename: string): (r: string)
    ensures |r| == |filename|
  {
    seq(|filename|, i requires 0 <= i < |filename| =>
      if filename[i] in InvalidFileChars then '_' else filename[i])
  }

  /** `sanitize_filename`: one `str.replace(c, '_')` per invalid character. */
  method SanitizeFilename(filename: string) returns (r: string)
    ensures r == Sanitized(filename)
  {
    r := filename;
    for k := 0 to |InvalidFileChars|
      invariant |r| == |filename|
      invariant forall i :: 0 <= i < |r| ==>
        r[i] == if filename[i] in InvalidFileChars[..k] then '_' else filename[i]
    {
      ghost var before := r;
      r := ReplaceChar(r, InvalidFileChars[k], '_');
      forall i | 0 <= i < |r|
        ensures r[i] == if filename[i] in InvalidFileChars[..k + 1] then '_' else filename[i]
      {
        assert InvalidFileChars[..k + 1] == InvalidFileChars[..k] + [InvalidFileChars[k]];
      }
    }
    assert InvalidFileChars[..|InvalidFileChars|] == InvalidFileChars;
  }

  /**
   * A sanitised name has the input's length, none of the invalid characters,
   * and every other character where it was.
   */
  lemma SanitizedSpec(filename: string)
    ensures |Sanitized(filename)| == |filename|
    ensures forall i :: 0 <= i < |filename| ==> Sanitized(filename)[i] !in InvalidFileChars
    ensures forall i :: 0 <= i < |filename| && filename[i] !in InvalidFileChars ==>
      Sanitized(filename)[i] == filename[i]
    ensures forall i :: 0 <= i < |filename| && filename[i] in InvalidFileChars ==>
      Sanitized(filename)[i] == '_'
  {
  }

  /** Sanitising twice is sanitising once. */
  lemma SanitizedIdempotent(filename: string)
    ensures Sanitized(Sanitized(filename)) == Sanitized(filename)
  {
    assert '_' !in InvalidFileChars;
  }

  // ---------------------------------------------------------------- get_color_for_status

  const StatusColors: map<string, string> := map[
    "open" := "#FFA500",
    "claimed" := "#28A745",
    "matched" := "#007BFF",
    "lost" := "#DC3545",
    "found" := "#17A2B8"
  ]

  const DefaultStatusColor: string := "#6C757D"

  /** `get_color_for_status`: the colour of the lower-cased status, grey otherwise. */
  function GetColorForStatus(status: string): (r: string)
    ensures r in StatusColors.Values || r == DefaultStatusColor
    ensures r == DefaultStatusColor <==> Lower(status) !in StatusColors
    ensures Lower(status) in StatusColors ==> r == StatusColors[Lower(status)]
  {
    if Lower(status) in StatusColors then StatusColors[Lower(status)] else DefaultStatusColor
  }

  /** The lookup ignores letter case: statuses equal up to case share a colour. */
  lemma ColorIgnoresCase(s: string, t: string)
    requires Lower(s) == Lower(t)
    ensures GetColorForStatus(s) == GetColorForStatus(t)
    ensures GetColorForStatus(s) == GetColorForStatus(Lower(s))
  {
    LowerIdempotent(s);
  }

  /** The five known statuses get five different colours. */
  lemma StatusColorsDistinct(a: string, b: string)
    requires a in StatusColors && b in StatusColors && a != b
    ensures GetColorForStatus(a) != GetColorForStatus(b)
  {
    KnownStatusLower(a);
    KnownStatusLower(b);
  }

  /** The known statuses are already lower-case. */
  lemma KnownStatusLower(a: string)
    requires a in StatusColors
    ensures Lower(a) == a
  {
  }

  // ---------------------------------------------------------------- calculate_match_percentage

  /** The three keys `calculate_match_percentage` reads; an absent key reads as ''. */
  datatype ItemFields = ItemFields(category: Option<string>, location: Option<string>, itemName: Option<string>)

  /** Case-insensitive equality of two `dict.get(key, '')` values. */
  predicate SameText(a: Option<string>, b: Option<string>) {
    Lower(a.GetOr("")) == Lower(b.GetOr(""))
  }

  /** Either lower-cased name contains the other. */
  predicate NamesOverlap(a: Option<string>, b: Option<string>) {
    var n1 := Lower(a.GetOr(""));
    var n2 := Lower(b.GetOr(""));
    Contains(n2, n1) || Contains(n1, n2)
  }

  /** The number of the three criteria two items meet. */
  function MatchPoints(item1: ItemFields, item2: ItemFields): nat {
    (if SameText(item1.category, item2.category) then 1 else 0)
    + (if SameText(item1.location, item2.location) then 1 else 0)
    + (if NamesOverlap(item1.itemName, item2.itemName) then 1 else 0)
  }

  /** The integer `score` that `calculate_match_percentage` accumulates (out of `max_score` = 3). */
  method CalculateMatchScore(item1: ItemFields, item2: ItemFields) returns (score: int)
    ensures score == MatchPoints(item1, item2)
    ensures 0 <= score <= 3
  {
    score := 0;
    if Lower(item1.category.GetOr("")) == Lower(item2.category.GetOr("")) {
      score := score + 1;
    }
    if Lower(item1.location.GetOr("")) == Lower(item2.location.GetOr("")) {
      score := score + 1;
    }
    var name1 := Lower(item1.itemName.GetOr(""));
    var name2 := Lower(item2.itemName.GetOr(""));
    if Contains(name2, name1) || Contains(name1, name2) {
      score := score + 1;
    }
  }

  /** The score does not depend on which item comes first. */
  lemma MatchPointsSymmetric(item1: ItemFields, item2: ItemFields)
    ensures MatchPoints(item1, item2) == MatchPoints(item2, item1)
  {
  }

  /** An item meets every criterion against itself. */
  lemma MatchPointsSelf(item: ItemFields)
    ensures MatchPoints(item, item) == 3
  {
    var n := Lower(item.itemName.GetOr(""));
    assert n <= n;
  }

  /** An empty or missing name is contained in every name, so it always scores. */
  lemma EmptyNameAlwaysScores(item1: ItemFields, item2: ItemFields)
    requires item1.itemName.GetOr("") == ""
    ensures NamesOverlap(item1.itemName, item2.itemName)
    ensures MatchPoints(item1, item2) >= 1
  {
    assert Lower(item1.itemName.GetOr("")) <= Lower(item2.itemName.GetOr(""));
  }

  // ---------------------------------------------------------------- get_relative_date

  /** `"{n} {unit}{'s' if n > 1 else ''} ago"`. */
  function UnitsAgo(n: int, unit: string): string {
    IntToDecimal(n) + " " + unit + (if n > 1 then "s" else "") + " ago"
  }

  /** `get_relative_date`, given the whole number of days since the date. */
  function GetRelativeDate(days: int): (r: string)
    ensures days == 0 ==> r == "Today"
    ensures days == 1 ==> r == "Yesterday"
    ensures days < 7 && days != 0 && days != 1 ==> r == IntToDecimal(days) + " days ago"
    ensures 7 <= days < 30 ==> r == IntToDecimal(days / 7) + " week" + (if days >= 14 then "s" else "") + " ago"
    ensures days >= 30 ==> r == IntToDecimal(days / 30) + " month" + (if days >= 60 then "s" else "") + " ago"
  {
    if days == 0 then "Today"
    else if days == 1 then "Yesterday"
    else if days < 7 then IntToDecimal(days) + " days ago"
    else if days < 30 then UnitsAgo(days / 7, "week")
    else UnitsAgo(days / 30, "month")
  }

  /** The text names a single week exactly for 7 to 13 days, a single month exactly for 30 to 59. */
  lemma RelativeDateSingular(days: int)
    ensures GetRelativeDate(days) == "1 week ago" <==> 7 <= days < 14
    ensures GetRelativeDate(days) == "1 month ago" <==> 30 <= days < 60
  {
    if days < 7 {
      RelativeDateUnderAWeek(days);
    } else if days < 30 {
      RelativeDateWeeks(days);
    } else {
      RelativeDateMonths(days);
    }
  }

  /** Below seven days the text names neither a week nor a month. */
  lemma RelativeDateUnderAWeek(days: int)
    requires days < 7
    ensures GetRelativeDate(days) != "1 week ago" && GetRelativeDate(days) != "1 month ago"
  {
    var r := GetRelativeDate(days);
    if days < 0 {
      assert r[0] == '-';
    } else if 2 <= days {
      var d := IntToDecimal(days);
      assert r == d + " days ago";
      if |r| == |"1 week ago"| {
        assert r[|d| + 1] == 'd';
      }
    }
  }

  /** From 7 to 29 days the text counts weeks, naming a single one below 14 days. */
  lemma RelativeDateWeeks(days: int)
    requires 7 <= days < 30
    ensures GetRelativeDate(days) == "1 week ago" <==> days < 14
    ensures GetRelativeDate(days) != "1 month ago"
  {
    var w := days / 7;
    UnitsAgoShape(w, "week");
    if w == 1 {
      UnitsAgoOne("week");
    } else {
      assert |IntToDecimal(w)| == 1;
    }
  }

  /** From 30 days on the text counts months, naming a single one below 60 days. */
  lemma RelativeDateMonths(days: int)
    requires days >= 30
    ensures GetRelativeDate(days) == "1 month ago" <==> days < 60
    ensures GetRelativeDate(days) != "1 week ago"
  {
    var m := days / 30;
    UnitsAgoShape(m, "month");
    if m == 1 {
      UnitsAgoOne("month");
    }
  }

  /** The length of the text for `n` units, and where the unit starts in it. */
  lemma UnitsAgoShape(n: nat, unit: string)
    requires n >= 1 && unit != ""
    ensures |UnitsAgo(n, unit)| == |IntToDecimal(n)| + |unit| + 5 + (if n > 1 then 1 else 0)
    ensures UnitsAgo(n, unit)[|IntToDecimal(n)| + 1] == unit[0]
  {
  }

  /** A single unit is written without a plural 's'. */
  lemma UnitsAgoOne(unit: string)
    ensures UnitsAgo(1, unit) == "1 " + unit + " ago"
  {
    assert IntToDecimal(1) == "1";
  }

  // ---------------------------------------------------------------- format_number

  lemma StripTrailingSpace(d: string)
    requires d != [] && !IsSpace(d[0]) && !IsSpace(d[|d| - 1])
    ensures Strip(d + " ") == d
  {
    var s := d + " ";
    assert LStrip(s) == s;
    assert s[..|s| - 1] == d;
    assert RStrip(s) == RStrip(d);
  }

  /** `format_number` below one thousand: `f"{num} {suffix}".strip()`. */
  function FormatNumber(num: int, suffix: string := ""): (r: string)
    requires num < 1000
    ensures suffix == "" ==> r == IntToDecimal(num)
    ensures suffix != "" && !IsSpace(suffix[|suffix| - 1]) ==> r == IntToDecimal(num) + " " + suffix
  {
    var digits := IntToDecimal(num);
    var s := digits + " " + suffix;
    if suffix == "" then
      assert s == digits + " ";
      StripTrailingSpace(digits);
      Strip(s)
    else
      assert s[0] == digits[0] && s[|s| - 1] == suffix[|suffix| - 1];
      if !IsSpace(suffix[|suffix| - 1]) then
        StripNoSurroundingSpace(s);
        Strip(s)
      else
        Strip(s)
  }
}
