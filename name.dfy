/** Display names of technologies (tech_tree/src/model/technology/name.rs). */
module Name {
  import opened Wrappers
  import opened Error

  type u8 = x: nat | x < 256

  datatype TechnologyName =
    | Simple(text: string)
    | Ranked(base: string, rank: u8, full: string)

  predicate IsDigit(c: char) {
    '0' <= c <= '9'
  }

  /** The decimal digits of n, without leading zeros (what `format!("{}", n)` prints). */
  function Decimal(n: nat): (s: string)
    ensures |s| > 0
    ensures forall i :: 0 <= i < |s| ==> IsDigit(s[i])
    ensures s[0] == '0' ==> n == 0
  {
    if n < 10 then [DigitChar(n)] else Decimal(n / 10) + [DigitChar(n % 10)]
  }

  function DigitChar(d: nat): (c: char)
    requires d < 10
    ensures IsDigit(c) && (c as int) - ('0' as int) == d
  {
    ('0' as int + d) as char
  }

  /** Reads a string of decimal digits back as a number. */
  function ParseDecimal(s: string): nat
    requires forall i :: 0 <= i < |s| ==> IsDigit(s[i])
  {
    if s == [] then 0
    else
      assert IsDigit(s[|s| - 1]);
      ParseDecimal(s[..|s| - 1]) * 10 + ((s[|s| - 1] as int) - ('0' as int))
  }

  lemma {:induction false} DecimalRoundTrip(n: nat)
    ensures ParseDecimal(Decimal(n)) == n
  {
    if n >= 10 {
      DecimalRoundTrip(n / 10);
      var s := Decimal(n);
      assert s[..|s| - 1] == Decimal(n / 10);
    }
  }

  /** TechnologyName::new_ranked: the full text is the base, one space, then the decimal rank. */
  function NewRanked(base: string, rank: u8): (n: TechnologyName)
    ensures n.Ranked? && n.base == base && n.rank == rank
  {
    Ranked(base, rank, base + " " + Decimal(rank))
  }

  /** The canonical display text of a name. */
  function GetFull(n: TechnologyName): (s: string)
    ensures n.Simple? ==> s == n.text
    ensures n.Ranked? ==> s == n.full
  {
    match n
    case Simple(text) => text
    case Ranked(_, _, full) => full
  }

  /** The full text of a ranked name splits back into its base and its rank. */
  lemma NewRankedFullSplits(base: string, rank: u8)
    ensures var f := GetFull(NewRanked(base, rank));
      && |f| > |base| + 1
      && f[..|base|] == base
      && f[|base|] == ' '
      && (forall i :: |base| + 1 <= i < |f| ==> IsDigit(f[i]))
      && ParseDecimal(f[|base| + 1..]) == rank
  {
    var f := GetFull(NewRanked(base, rank));
    assert f[|base| + 1..] == Decimal(rank);
    DecimalRoundTrip(rank);
  }

  lemma GetFullExamples()
    ensures GetFull(Simple("Test")) == "Test"
    ensures GetFull(NewRanked("Tech", 4)) == "Tech 4"
  {
  }

  /** The characters `str::trim` removes: those with the Unicode White_Space property. */
  predicate IsWhitespace(c: char) {
    || ('\t' <= c <= '\r') || c == ' ' || c == '\U{0085}' || c == '\U{00A0}' || c == '\U{1680}'
    || ('\U{2000}' <= c <= '\U{200A}') || c == '\U{2028}' || c == '\U{2029}' || c == '\U{202F}'
    || c == '\U{205F}' || c == '\U{3000}'
  }

  /** Empty or whitespace only. */
  predicate IsBlank(s: string) {
    forall i :: 0 <= i < |s| ==> IsWhitespace(s[i])
  }

  /** Length of the whitespace run at the start of s. */
  function BlankPrefix(s: string): (k: nat)
    ensures k <= |s| && IsBlank(s[..k])
    ensures k < |s| ==> !IsWhitespace(s[k])
  {
    if s != [] && IsWhitespace(s[0]) then
      var k := BlankPrefix(s[1..]);
      assert s[..k + 1] == [s[0]] + s[1..][..k];
      k + 1
    else 0
  }

  /** Where the whitespace run at the end of s starts. */
  function BlankSuffixStart(s: string): (k: nat)
    ensures k <= |s| && IsBlank(s[k..])
    ensures k > 0 ==> !IsWhitespace(s[k - 1])
  {
    if s != [] && IsWhitespace(s[|s| - 1]) then
      var k := BlankSuffixStart(s[..|s| - 1]);
      assert s[k..] == s[..|s| - 1][k..] + [s[|s| - 1]];
      k
    else |s|
  }

  /** The text without leading and trailing whitespace: it starts and ends with a
      non-whitespace character, and is empty only for a blank text. */
  function Trim(s: string): (r: string)
    ensures |r| <= |s|
    ensures r != [] ==> !IsWhitespace(r[0]) && !IsWhitespace(r[|r| - 1])
    ensures r == [] <==> IsBlank(s)
  {
    var j := BlankSuffixStart(s);
    var i := BlankPrefix(s[..j]);
    assert s[..j][..i] == s[..i];
    assert s[..j][i..] == s[i..j];
    BlankAround(s, i, j);
    assert IsBlank(s) ==> j == 0;
    s[i..j]
  }

  /** The trimmed text is a slice of s with nothing but whitespace around it. */
  lemma TrimIsSlice(s: string)
    ensures exists i, j :: 0 <= i <= j <= |s| && Trim(s) == s[i..j] && IsBlank(s[..i]) && IsBlank(s[j..])
  {
    var j := BlankSuffixStart(s);
    var i := BlankPrefix(s[..j]);
    assert s[..j][..i] == s[..i];
    assert s[..j][i..] == s[i..j];
    assert Trim(s) == s[i..j];
  }

  /** A text cut into three blank pieces is blank. */
  lemma BlankAround(s: string, i: nat, j: nat)
    requires i <= j <= |s| && IsBlank(s[..i]) && IsBlank(s[j..])
    ensures IsBlank(s[i..j]) ==> IsBlank(s)
  {
    if IsBlank(s[i..j]) {
      forall k | 0 <= k < |s| ensures IsWhitespace(s[k]) {
        if k < i { assert s[..i][k] == s[k]; }
        else if k < j { assert s[i..j][k - i] == s[k]; }
        else { assert s[j..][k - j] == s[k]; }
      }
    }
  }

  /** Stand-in for TechnologyName::new, whose code is not part of this model: a name
      that is blank fails with InvalidName carrying the raw text; any other is the
      simple name of its trimmed text. */
  function NewName(raw: string): (r: Result<TechnologyName, AddError>)
    ensures r.Err? <==> IsBlank(raw)
    ensures r.Err? ==> r.error == InvalidName(raw)
    ensures r.Ok? ==> r.value == Simple(Trim(raw)) && |GetFull(r.value)| > 0
  {
    var t := Trim(raw);
    if t == [] then Err(InvalidName(raw)) else Ok(Simple(t))
  }
}
