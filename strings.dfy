/**
 * The JavaScript string operations the catalog relies on, over `seq<char>`:
 * `toLowerCase` (ASCII letters only), `includes`, `endsWith`, `replace`
 * with a string pattern (first occurrence only), `trim`, the decimal
 * rendering of a non-negative integer (as in a template literal) and the
 * sign of `localeCompare` (code-point order).
 */
module Strings {
  import opened Wrappers

  // ---------------------------------------------------------------------
  // Lower-casing
  // ---------------------------------------------------------------------

  function LowerChar(c: char): char {
    if 'A' <= c <= 'Z' then (c as int + 32) as char else c
  }

  function Lower(s: string): string {
    seq(|s|, i requires 0 <= i < |s| => LowerChar(s[i]))
  }

  /** Lower-casing works character by character, so it distributes over concatenation. */
  lemma LowerAppend(a: string, b: string)
    ensures Lower(a + b) == Lower(a) + Lower(b)
  {
  }

  // ---------------------------------------------------------------------
  // Searching: indexOf, includes, endsWith
  // ---------------------------------------------------------------------

  /** `t` occurs in `s` starting at index `i`. */
  predicate OccursAt(s: string, t: string, i: nat) {
    i + |t| <= |s| && s[i..i + |t|] == t
  }

  function IndexOfFrom(s: string, t: string, i: nat): (r: Option<nat>)
    requires i <= |s|
    ensures r.Some? ==> i <= r.value && OccursAt(s, t, r.value)
    ensures r.Some? ==> forall j :: i <= j < r.value ==> !OccursAt(s, t, j)
    ensures r.None? ==> forall j :: i <= j <= |s| ==> !OccursAt(s, t, j)
    decreases |s| - i
  {
    if OccursAt(s, t, i) then Some(i)
    else if i == |s| then None
    else IndexOfFrom(s, t, i + 1)
  }

  /** `s.indexOf(t)`: the first index at which `t` occurs, if any. */
  function IndexOf(s: string, t: string): Option<nat> {
    IndexOfFrom(s, t, 0)
  }

  /** `s.includes(t)`. */
  predicate Contains(s: string, t: string) {
    IndexOf(s, t).Some?
  }

  /** `includes` holds exactly when some occurrence exists. */
  lemma ContainsIff(s: string, t: string)
    ensures Contains(s, t) <==> exists i: nat :: OccursAt(s, t, i)
  {
    if !Contains(s, t) {
      forall i: nat ensures !OccursAt(s, t, i) {
        if i <= |s| {
          assert !OccursAt(s, t, i);
        }
      }
    }
  }

  /** Every string includes the empty string, so an empty search term matches everything. */
  lemma ContainsEmpty(s: string)
    ensures Contains(s, "")
  {
    assert OccursAt(s, "", 0);
  }

  /** `s.endsWith(t)`. */
  predicate EndsWith(s: string, t: string) {
    |t| <= |s| && s[|s| - |t|..] == t
  }

  // ---------------------------------------------------------------------
  // replace(pattern, '') with a string pattern: only the first occurrence goes
  // ---------------------------------------------------------------------

  function RemoveFirst(s: string, t: string): string {
    match IndexOf(s, t)
    case None => s
    case Some(i) => s[..i] + s[i + |t|..]
  }

  /**
   * Removing the first occurrence loses nothing else: putting the pattern
   * back where it was taken out restores the input, and without an
   * occurrence the input is returned as it is.
   */
  lemma RemoveFirstRestores(s: string, t: string)
    ensures IndexOf(s, t).None? ==> RemoveFirst(s, t) == s
    ensures IndexOf(s, t).Some? ==>
      var i := IndexOf(s, t).value;
      |RemoveFirst(s, t)| == |s| - |t| &&
      RemoveFirst(s, t)[..i] + t + RemoveFirst(s, t)[i..] == s
  {
    if IndexOf(s, t).Some? {
      var i := IndexOf(s, t).value;
      var r := RemoveFirst(s, t);
      assert r[..i] == s[..i];
      assert r[i..] == s[i + |t|..];
      assert s == s[..i] + s[i..i + |t|] + s[i + |t|..];
    }
  }

  /**
   * A name made of a base without ".pdf" followed by the extension ".pdf"
   * loses exactly that extension: the first occurrence is the suffix,
   * because '.' starts the pattern and appears nowhere else in it.
   */
  lemma {:induction false} RemoveExtension(base: string)
    requires !Contains(base, ".pdf")
    ensures RemoveFirst(base + ".pdf", ".pdf") == base
  {
    var s := base + ".pdf";
    var n := |base|;
    assert OccursAt(s, ".pdf", n) by { assert s[n..n + 4] == ".pdf"; }
    ContainsIff(base, ".pdf");
    forall j | 0 <= j < n
      ensures !OccursAt(s, ".pdf", j)
    {
      if j + 4 <= n {
        assert s[j..j + 4] == base[j..j + 4];
        assert !OccursAt(base, ".pdf", j);
      } else {
        // the '.' at index n falls inside the window, where the pattern has 'p', 'd' or 'f'
        assert s[j..j + 4][n - j] == s[n] == '.';
        assert ".pdf"[n - j] != '.';
      }
    }
    assert IndexOf(s, ".pdf") == Some(n);
    assert s[..n] == base;
  }

  // ---------------------------------------------------------------------
  // trim
  // ---------------------------------------------------------------------

  /** The characters `String.prototype.trim` removes: white space and line terminators. */
  predicate IsSpace(c: char) {
    c == '\t' || c == '\n' || c == '\U{B}' || c == '\U{C}' || c == '\r' || c == ' '
    || c == '\U{A0}' || c == '\U{1680}' || ('\U{2000}' <= c <= '\U{200A}')
    || c == '\U{2028}' || c == '\U{2029}' || c == '\U{202F}' || c == '\U{205F}'
    || c == '\U{3000}' || c == '\U{FEFF}'
  }

  function TrimStart(s: string): string {
    if s != [] && IsSpace(s[0]) then TrimStart(s[1..]) else s
  }

  function TrimEnd(s: string): string {
    if s != [] && IsSpace(s[|s| - 1]) then TrimEnd(s[..|s| - 1]) else s
  }

  function Trim(s: string): string {
    TrimEnd(TrimStart(s))
  }

  predicate Blank(s: string) {
    forall i :: 0 <= i < |s| ==> IsSpace(s[i])
  }

  lemma {:induction false} TrimStartBlank(s: string)
    ensures TrimStart(s) == [] <==> Blank(s)
    ensures TrimStart(s) != [] ==> !IsSpace(TrimStart(s)[0])
  {
    if s != [] && IsSpace(s[0]) {
      TrimStartBlank(s[1..]);
      if Blank(s[1..]) {
        forall i | 0 <= i < |s| ensures IsSpace(s[i]) {
          if i > 0 { assert s[i] == s[1..][i - 1]; }
        }
      }
      if Blank(s) {
        forall i | 0 <= i < |s[1..]| ensures IsSpace(s[1..][i]) {
          assert s[1..][i] == s[i + 1];
        }
      }
    }
  }

  /** What `TrimStart` leaves is a suffix of its input. */
  lemma {:induction false} TrimStartSuffix(s: string) returns (k: nat)
    ensures k <= |s| && TrimStart(s) == s[k..]
  {
    if s != [] && IsSpace(s[0]) {
      var k' := TrimStartSuffix(s[1..]);
      k := k' + 1;
      assert s[1..][k'..] == s[k..];
    } else {
      k := 0;
    }
  }

  lemma {:induction false} TrimEndBlank(s: string)
    ensures TrimEnd(s) == [] <==> Blank(s)
    ensures TrimEnd(s) != [] ==> !IsSpace(TrimEnd(s)[|TrimEnd(s)| - 1])
    decreases |s|
  {
    if s != [] && IsSpace(s[|s| - 1]) {
      var t := s[..|s| - 1];
      TrimEndBlank(t);
      if Blank(t) {
        forall i | 0 <= i < |s| ensures IsSpace(s[i]) {
          if i < |s| - 1 { assert s[i] == t[i]; }
        }
      }
    }
  }

  /** What `TrimEnd` leaves is a prefix of its input. */
  lemma {:induction false} TrimEndPrefix(s: string) returns (k: nat)
    ensures k <= |s| && TrimEnd(s) == s[..k]
    decreases |s|
  {
    if s != [] && IsSpace(s[|s| - 1]) {
      var t := s[..|s| - 1];
      k := TrimEndPrefix(t);
      assert t[..k] == s[..k];
    } else {
      k := |s|;
    }
  }

  /** `s.trim()` is empty exactly when every character of `s` is white space. */
  lemma {:induction false} TrimBlankIff(s: string)
    ensures Trim(s) == [] <==> Blank(s)
  {
    var u := TrimStart(s);
    TrimStartBlank(s);
    TrimEndBlank(u);
    // u is empty or starts with a non-space, so it is blank only when empty
    if u != [] {
      assert !IsSpace(u[0]);
      assert !Blank(u);
    }
  }

  /** A non-empty `s.trim()` neither starts nor ends with white space. */
  lemma {:induction false} TrimEdges(s: string)
    ensures Trim(s) != [] ==> !IsSpace(Trim(s)[0]) && !IsSpace(Trim(s)[|Trim(s)| - 1])
  {
    var u := TrimStart(s);
    var t := TrimEnd(u);
    if t != [] {
      TrimStartBlank(s);
      TrimEndBlank(u);
      var k := TrimEndPrefix(u);
      assert t[0] == u[0];
    }
  }

  /** `s.trim()` is a contiguous slice of `s`. */
  lemma TrimSlice(s: string) returns (i: nat, j: nat)
    ensures i <= j <= |s| && Trim(s) == s[i..j]
  {
    var u := TrimStart(s);
    var a := TrimStartSuffix(s);
    var k := TrimEndPrefix(u);
    i, j := a, a + k;
    SuffixPrefix(s, a, k);
  }

  lemma SuffixPrefix(s: string, a: nat, k: nat)
    requires a + k <= |s|
    ensures s[a..][..k] == s[a..a + k]
  {
  }

  // ---------------------------------------------------------------------
  // Decimal rendering of a non-negative integer
  // ---------------------------------------------------------------------

  predicate IsDigit(c: char) {
    '0' <= c <= '9'
  }

  function DigitChar(d: nat): char
    requires d < 10
  {
    ('0' as int + d) as char
  }

  /** `${n}` for a non-negative integer `n`: its digits, most significant first, no leading zero. */
  function Decimal(n: nat): (r: string)
    ensures |r| > 0
    ensures forall i :: 0 <= i < |r| ==> IsDigit(r[i])
  {
    if n < 10 then [DigitChar(n)] else Decimal(n / 10) + [DigitChar(n % 10)]
  }

  /** The value of a string of decimal digits. */
  function DecimalValue(s: string): int
    requires forall i :: 0 <= i < |s| ==> IsDigit(s[i])
  {
    if s == [] then 0
    else DecimalValue(s[..|s| - 1]) * 10 + (s[|s| - 1] as int - '0' as int)
  }

  /** Reading back the rendering of `n` gives `n`. */
  lemma {:induction false} DecimalRoundTrip(n: nat)
    ensures DecimalValue(Decimal(n)) == n
  {
    var r := Decimal(n);
    if n >= 10 {
      DecimalRoundTrip(n / 10);
      assert r[..|r| - 1] == Decimal(n / 10);
    }
  }

  /** Distinct numbers render to distinct strings. */
  lemma DecimalInjective(m: nat, n: nat)
    requires Decimal(m) == Decimal(n)
    ensures m == n
  {
    DecimalRoundTrip(m);
    DecimalRoundTrip(n);
  }

  // ---------------------------------------------------------------------
  // Ordering of strings (the sign of localeCompare, in code-point order)
  // ---------------------------------------------------------------------

  /** Negative, zero or positive as `a` sorts before, with or after `b`. */
  function Compare(a: string, b: string): int {
    if a == [] then (if b == [] then 0 else -1)
    else if b == [] then 1
    else if a[0] < b[0] then -1
    else if a[0] > b[0] then 1
    else Compare(a[1..], b[1..])
  }

  /** Swapping the operands flips the sign, and only equal strings compare equal. */
  lemma {:induction false} CompareAntisymmetric(a: string, b: string)
    ensures Compare(a, b) == -Compare(b, a)
    ensures Compare(a, b) == 0 <==> a == b
  {
    if a != [] && b != [] && a[0] == b[0] {
      CompareAntisymmetric(a[1..], b[1..]);
      if a[1..] == b[1..] {
        assert a == [a[0]] + a[1..] && b == [b[0]] + b[1..];
      }
    }
  }

  lemma {:induction false} CompareTransitive(a: string, b: string, c: string)
    requires Compare(a, b) <= 0 && Compare(b, c) <= 0
    ensures Compare(a, c) <= 0
  {
    if a != [] && b != [] && c != [] && a[0] == b[0] == c[0] {
      CompareTransitive(a[1..], b[1..], c[1..]);
    }
  }
}
