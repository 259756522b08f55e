/** Column-label normalisation: strip surrounding whitespace, lower-case, then
    turn spaces and hyphens into underscores (pandas' `str.strip`,
    `str.lower`, `str.replace(" ", "_")`, `str.replace("-", "_")`). */
module ColumnNames {
  import opened Tables

  /** The characters Python's `str.isspace` accepts, which `str.strip` removes. */
  predicate IsSpace(c: char) {
    || c == ' '
    || '\t' <= c <= '\r'
    || '\U{1C}' <= c <= '\U{1F}'
    || c == '\U{85}' || c == '\U{A0}' || c == '\U{1680}'
    || '\U{2000}' <= c <= '\U{200A}'
    || c == '\U{2028}' || c == '\U{2029}' || c == '\U{202F}' || c == '\U{205F}' || c == '\U{3000}'
  }

  predicate IsUpper(c: char) {
    'A' <= c <= 'Z'
  }

  /** ASCII lower-casing; every other character is left alone. */
  function LowerChar(c: char): (d: char)
    ensures !IsUpper(d)
    ensures !IsUpper(c) ==> d == c
    ensures IsSpace(d) <==> IsSpace(c)
  {
    if IsUpper(c) then (c as int + 32) as char else c
  }

  /** Number of whitespace characters `s` starts with. */
  function LeadingSpaces(s: string): (n: nat)
    ensures n <= |s|
    ensures forall k | 0 <= k < n :: IsSpace(s[k])
    ensures n < |s| ==> !IsSpace(s[n])
  {
    if |s| > 0 && IsSpace(s[0]) then 1 + LeadingSpaces(s[1..]) else 0
  }

  /** Number of whitespace characters `s` ends with. */
  function TrailingSpaces(s: string): (n: nat)
    ensures n <= |s|
    ensures forall k | |s| - n <= k < |s| :: IsSpace(s[k])
    ensures n < |s| ==> !IsSpace(s[|s| - n - 1])
  {
    if |s| > 0 && IsSpace(s[|s| - 1]) then 1 + TrailingSpaces(s[..|s| - 1]) else 0
  }

  /** `str.strip()`: `s` without its leading and trailing whitespace. */
  function Strip(s: string): (r: string)
    ensures |r| <= |s|
    ensures |r| > 0 ==> !IsSpace(r[0]) && !IsSpace(r[|r| - 1])
    ensures LeadingSpaces(s) + |r| <= |s| && r == s[LeadingSpaces(s)..LeadingSpaces(s) + |r|]
    ensures forall k | LeadingSpaces(s) + |r| <= k < |s| :: IsSpace(s[k])
  {
    var rest := s[LeadingSpaces(s)..];
    rest[..|rest| - TrailingSpaces(rest)]
  }

  function Lower(s: string): (r: string)
    ensures |r| == |s|
    ensures forall k | 0 <= k < |s| :: r[k] == LowerChar(s[k])
  {
    seq(|s|, k requires 0 <= k < |s| => LowerChar(s[k]))
  }

  /** `str.replace(from, to)` for single-character `from` and `to`. */
  function ReplaceChar(s: string, from: char, to: char): (r: string)
    ensures |r| == |s|
    ensures forall k | 0 <= k < |s| :: r[k] == if s[k] == from then to else s[k]
  {
    seq(|s|, k requires 0 <= k < |s| => if s[k] == from then to else s[k])
  }

  /** What a normalised label looks like: no space, hyphen or upper-case ASCII
      letter anywhere, and no whitespace at either end. */
  predicate IsNormalName(s: string) {
    && (forall k | 0 <= k < |s| :: s[k] != ' ' && s[k] != '-' && !IsUpper(s[k]))
    && (|s| > 0 ==> !IsSpace(s[0]) && !IsSpace(s[|s| - 1]))
  }

  /** The label pipeline of the cleaning block, applied to one label. */
  function NormalizeName(raw: string): (name: string)
    ensures IsNormalName(name)
    ensures |name| <= |raw|
    ensures |name| == |Strip(raw)|
    ensures forall k | 0 <= k < |name| ::
              name[k] == if Strip(raw)[k] == ' ' || Strip(raw)[k] == '-' then '_' else LowerChar(Strip(raw)[k])
  {
    ReplaceChar(ReplaceChar(Lower(Strip(raw)), ' ', '_'), '-', '_')
  }

  /** Stripping a string without whitespace at its ends changes nothing. */
  lemma StripUntrimmed(s: string)
    requires |s| > 0 ==> !IsSpace(s[0]) && !IsSpace(s[|s| - 1])
    ensures Strip(s) == s
  {
    assert LeadingSpaces(s) == 0;
    assert TrailingSpaces(s) == 0;
  }

  /** A label is left unchanged by normalisation exactly when it is already in
      normal form. */
  lemma NormalizeFixedPoints(s: string)
    ensures NormalizeName(s) == s <==> IsNormalName(s)
  {
    if IsNormalName(s) {
      StripUntrimmed(s);
      assert Lower(s) == s;
      assert ReplaceChar(s, ' ', '_') == s;
      assert ReplaceChar(s, '-', '_') == s;
    }
  }

  /** Normalising twice is normalising once. */
  lemma NormalizeIdempotent(s: string)
    ensures NormalizeName(NormalizeName(s)) == NormalizeName(s)
  {
    NormalizeFixedPoints(NormalizeName(s));
  }

  /** `df.columns = df.columns.str.strip().str.lower()...`: every label is
      normalised, the rows are untouched. */
  function NormalizeColumns(t: Table): (u: Table)
    requires t.WellFormed()
    ensures u.WellFormed() && u.rows == t.rows && |u.columns| == |t.columns|
    ensures forall k | 0 <= k < |u.columns| :: IsNormalName(u.columns[k])
    ensures forall k | 0 <= k < |t.columns| :: u.columns[k] == NormalizeName(t.columns[k])
  {
    Table(seq(|t.columns|, k requires 0 <= k < |t.columns| => NormalizeName(t.columns[k])), t.rows)
  }

  /** A table whose labels are all normal keeps its labels. */
  lemma NormalizeColumnsFixed(t: Table)
    requires t.WellFormed()
    requires forall k | 0 <= k < |t.columns| :: IsNormalName(t.columns[k])
    ensures NormalizeColumns(t) == t
  {
    forall k | 0 <= k < |t.columns|
      ensures NormalizeName(t.columns[k]) == t.columns[k]
    {
      NormalizeFixedPoints(t.columns[k]);
    }
  }

  /** A typical CSV header: "Duration Minutes" becomes "duration_minutes". */
  lemma NormalizeHeaderExample()
    ensures NormalizeName("Duration Minutes") == "duration_minutes"
  {
    StripUntrimmed("Duration Minutes");
    LowerHeader();
    UnderscoreHeader();
  }

  lemma UnderscoreHeader()
    ensures ReplaceChar(ReplaceChar("duration minutes", ' ', '_'), '-', '_') == "duration_minutes"
  {
    assert ReplaceChar("duration minutes", ' ', '_') == "duration_minutes";
  }

  lemma LowerHeader()
    ensures Lower("Duration Minutes") == "duration minutes"
  {
  }

  /** A padded, hyphenated label is trimmed before its hyphen becomes an
      underscore. */
  lemma NormalizePaddedExample()
    ensures NormalizeName(" User-Review\t") == "user_review"
  {
    assert " User-Review\t"[1..] == "User-Review\t";
    assert "User-Review\t"[..11] == "User-Review";
    assert LeadingSpaces("User-Review\t") == 0;
    assert TrailingSpaces("User-Review") == 0;
    assert Strip(" User-Review\t") == "User-Review";
    assert Lower("User-Review") == "user-review";
    assert ReplaceChar("user-review", ' ', '_') == "user-review";
    assert ReplaceChar("user-review", '-', '_') == "user_review";
  }
}
