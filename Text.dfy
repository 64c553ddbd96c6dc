/** String operations of the cleaning script and the dashboard, written
    after Python's `str` methods: `isspace`, `strip`, `lower`, `title`, the
    substring test `k in s`, and a `Join` used to spell the INSERT
    statement's literal column and marker lists. Case mapping covers ASCII
    letters only; whitespace is Python's full `isspace` set. */
module Text {

  /** Python's `str.isspace()` for one character. */
  predicate IsSpace(ch: char) {
    || ('\t' <= ch <= '\r')            // \t \n \x0b \x0c \r
    || ('\U{1c}' <= ch <= '\U{1f}')    // file, group, record and unit separators
    || ch == ' ' || ch == '\U{85}' || ch == '\U{a0}' || ch == '\U{1680}'
    || ('\U{2000}' <= ch <= '\U{200a}')
    || ch == '\U{2028}' || ch == '\U{2029}' || ch == '\U{202f}' || ch == '\U{205f}' || ch == '\U{3000}'
  }

  predicate IsUpper(ch: char) { 'A' <= ch <= 'Z' }
  predicate IsLower(ch: char) { 'a' <= ch <= 'z' }
  predicate IsLetter(ch: char) { IsUpper(ch) || IsLower(ch) }

  function LowerChar(ch: char): (r: char)
    ensures IsLetter(ch) <==> IsLetter(r)
    ensures !IsUpper(r)
    ensures IsSpace(r) <==> IsSpace(ch)
  {
    if IsUpper(ch) then ch - 'A' + 'a' else ch
  }

  function UpperChar(ch: char): (r: char)
    ensures IsLetter(ch) <==> IsLetter(r)
    ensures LowerChar(r) == LowerChar(ch)
  {
    if IsLower(ch) then ch - 'a' + 'A' else ch
  }

  /** `s.lower()`, for ASCII letters. */
  function Lower(s: string): (r: string)
    ensures |r| == |s|
    ensures forall i :: 0 <= i < |s| ==> r[i] == LowerChar(s[i])
  {
    seq(|s|, i requires 0 <= i < |s| => LowerChar(s[i]))
  }

  /** `s.lstrip()`. */
  function TrimStart(s: string): (r: string)
    ensures |r| <= |s| && r == s[|s| - |r|..]
    ensures r == [] || !IsSpace(r[0])
  {
    if |s| > 0 && IsSpace(s[0]) then TrimStart(s[1..]) else s
  }

  /** `s.rstrip()`. */
  function TrimEnd(s: string): (r: string)
    ensures |r| <= |s| && r == s[..|r|]
    ensures r == [] || !IsSpace(r[|r| - 1])
  {
    if |s| > 0 && IsSpace(s[|s| - 1]) then TrimEnd(s[..|s| - 1]) else s
  }

  /** `s.strip()`: the result is the piece of `s` left after cutting leading
      and trailing whitespace, so it neither starts nor ends with whitespace,
      and everything cut on either side is whitespace. */
  function Strip(s: string): (r: string)
    ensures r == [] || (!IsSpace(r[0]) && !IsSpace(r[|r| - 1]))
    ensures OccursAt(s, r, |s| - |TrimStart(s)|)
    ensures forall i :: 0 <= i < |s| - |TrimStart(s)| ==> IsSpace(s[i])
    ensures forall i :: |s| - |TrimStart(s)| + |r| <= i < |s| ==> IsSpace(s[i])
  {
    var t := TrimStart(s);
    var r := TrimEnd(t);
    TrimStartCutsOnlySpace(s);
    TrimEndCutsOnlySpace(t);
    StripPieces(s, t, r);
    r
  }

  /** A piece `r` kept at the front of a suffix `t` of `s`, where what was
      cut before `t` and after `r` is whitespace: `r` is a slice of `s` with
      only whitespace around it. */
  lemma StripPieces(s: string, t: string, r: string)
    requires |t| <= |s| && t == s[|s| - |t|..] && |r| <= |t| && r == t[..|r|]
    requires forall i :: 0 <= i < |s| - |t| ==> IsSpace(s[i])
    requires forall j :: |r| <= j < |t| ==> IsSpace(t[j])
    ensures OccursAt(s, r, |s| - |t|)
    ensures forall i :: |s| - |t| + |r| <= i < |s| ==> IsSpace(s[i])
  {
    SliceOfSuffix(s, t, r);
    forall i | |s| - |t| + |r| <= i < |s|
      ensures IsSpace(s[i])
    {
      assert s[i] == t[i - (|s| - |t|)];
    }
  }

  /** A prefix `r` of a suffix `t` of `s` occurs in `s` where `t` starts. */
  lemma SliceOfSuffix(s: string, t: string, r: string)
    requires |t| <= |s| && t == s[|s| - |t|..]
    requires |r| <= |t| && r == t[..|r|]
    ensures OccursAt(s, r, |s| - |t|)
  {
    var k := |s| - |t|;
    forall m | 0 <= m < |r|
      ensures s[k + m] == r[m]
    {
      assert r[m] == t[m];
    }
  }

  /** `s.title()` for ASCII: a letter is upper-cased when the character before
      it is not a letter, lower-cased otherwise; only case changes. */
  function Title(s: string): (r: string)
    ensures |r| == |s|
    ensures forall i :: 0 <= i < |s| ==>
      r[i] == (if i > 0 && IsLetter(s[i - 1]) then LowerChar(s[i]) else UpperChar(s[i]))
    ensures Lower(r) == Lower(s)
  {
    LowerTitleAfter(s, false);
    TitleAfter(s, false)
  }

  /** `title` of `s` when the character before `s` is a letter or not. */
  function TitleAfter(s: string, afterLetter: bool): (r: string)
    ensures |r| == |s|
    ensures forall i :: 0 <= i < |s| ==>
      r[i] == (if (if i == 0 then afterLetter else IsLetter(s[i - 1])) then LowerChar(s[i]) else UpperChar(s[i]))
  {
    if s == [] then []
    else
      var ch := if afterLetter then LowerChar(s[0]) else UpperChar(s[0]);
      [ch] + TitleAfter(s[1..], IsLetter(s[0]))
  }

  /** `k` occurs in `s` starting at index `i`. */
  predicate OccursAt(s: string, k: string, i: int) {
    0 <= i && i + |k| <= |s| && s[i..i + |k|] == k
  }

  /** The Python test `k in s` on strings. */
  predicate Contains(s: string, k: string) {
    exists i :: 0 <= i <= |s| - |k| && OccursAt(s, k, i)
  }

  /** Number of positions where the two-character placeholder "%s" starts. */
  function Placeholders(s: string): nat {
    if |s| < 2 then 0
    else (if s[0] == '%' && s[1] == 's' then 1 else 0) + Placeholders(s[1..])
  }

  /** The positional parameter marker of a MySQL statement. */
  const Marker: string := "%s"

  /** `n` copies of `s`. */
  function Repeat(s: string, n: nat): (r: seq<string>)
    ensures |r| == n && forall i :: 0 <= i < n ==> r[i] == s
  {
    if n == 0 then [] else [s] + Repeat(s, n - 1)
  }

  /** `sep.join(parts)`. */
  function Join(parts: seq<string>, sep: string): string {
    if |parts| == 0 then ""
    else if |parts| == 1 then parts[0]
    else parts[0] + sep + Join(parts[1..], sep)
  }

  // ---------------------------------------------------------------------
  // Lemmas

  /** Lower-casing is idempotent. */
  lemma LowerIdempotent(s: string)
    ensures Lower(Lower(s)) == Lower(s)
  {
  }

  /** A string with no whitespace at either end is its own strip. */
  lemma {:induction false} StripNoSpaceEnds(s: string)
    requires s == [] || (!IsSpace(s[0]) && !IsSpace(s[|s| - 1]))
    ensures Strip(s) == s
  {
  }

  /** `lstrip` cuts whitespace only. */
  lemma {:induction false} TrimStartCutsOnlySpace(s: string)
    ensures forall i :: 0 <= i < |s| - |TrimStart(s)| ==> IsSpace(s[i])
  {
    if |s| > 0 && IsSpace(s[0]) {
      var rest := s[1..];
      TrimStartCutsOnlySpace(rest);
      assert TrimStart(s) == TrimStart(rest);
      SpaceBeforeSpaces(s, |rest| - |TrimStart(rest)|);
    }
  }

  /** A whitespace character in front of `n` whitespace characters. */
  lemma SpaceBeforeSpaces(s: string, n: nat)
    requires |s| > 0 && IsSpace(s[0]) && n < |s|
    requires forall i :: 0 <= i < n ==> IsSpace(s[1..][i])
    ensures forall i :: 0 <= i < n + 1 ==> IsSpace(s[i])
  {
    forall i | 0 < i < n + 1
      ensures IsSpace(s[i])
    {
      assert s[i] == s[1..][i - 1];
    }
  }

  /** `rstrip` cuts whitespace only. */
  lemma {:induction false} TrimEndCutsOnlySpace(s: string)
    ensures forall i :: |TrimEnd(s)| <= i < |s| ==> IsSpace(s[i])
  {
    if |s| > 0 && IsSpace(s[|s| - 1]) {
      TrimEndCutsOnlySpace(s[..|s| - 1]);
    }
  }

  /** Lower-casing commutes with taking a piece of a string. */
  lemma LowerSlice(s: string, a: nat, b: nat)
    requires a <= b <= |s|
    ensures Lower(s[a..b]) == Lower(s)[a..b]
  {
  }

  /** `in` is transitive: a substring of a substring is a substring. */
  lemma ContainsTrans(s: string, t: string, k: string)
    requires Contains(s, t) && Contains(t, k)
    ensures Contains(s, k)
  {
    var i :| 0 <= i <= |s| - |t| && OccursAt(s, t, i);
    var j :| 0 <= j <= |t| - |k| && OccursAt(t, k, j);
    assert t == s[i..i + |t|];
    assert forall m :: 0 <= m < |k| ==> s[i + j + m] == t[j + m] == k[m];
    assert s[i + j..i + j + |k|] == k;
    assert OccursAt(s, k, i + j);
  }

  /** Lower-casing preserves substrings. */
  lemma ContainsLower(s: string, t: string)
    requires Contains(s, t)
    ensures Contains(Lower(s), Lower(t))
  {
    var i :| 0 <= i <= |s| - |t| && OccursAt(s, t, i);
    LowerSlice(s, i, i + |t|);
    assert OccursAt(Lower(s), Lower(t), i);
  }

  /** Title-casing changes only the case of letters. */
  lemma {:induction false} LowerTitleAfter(s: string, afterLetter: bool)
    ensures Lower(TitleAfter(s, afterLetter)) == Lower(s)
  {
    if s != [] {
      LowerTitleAfter(s[1..], IsLetter(s[0]));
      var ch := if afterLetter then LowerChar(s[0]) else UpperChar(s[0]);
      assert TitleAfter(s, afterLetter) == [ch] + TitleAfter(s[1..], IsLetter(s[0]));
      assert Lower(s) == [LowerChar(s[0])] + Lower(s[1..]);
    }
  }

  /** Placeholders in a concatenation: none is formed across the seam when the
      left part does not end with '%' or the right part does not start with 's'. */
  lemma {:induction false} PlaceholdersAppend(a: string, b: string)
    requires a == [] || b == [] || a[|a| - 1] != '%' || b[0] != 's'
    ensures Placeholders(a + b) == Placeholders(a) + Placeholders(b)
  {
    if a != [] {
      assert (a + b)[1..] == a[1..] + b;
      if |a| == 1 {
        assert Placeholders(a) == 0;
        if |b| >= 1 {
          assert (a + b)[1..] == b;
        }
      } else {
        PlaceholdersAppend(a[1..], b);
      }
    } else {
      assert a + b == b;
    }
  }

  /** Text without '%' has no placeholder. */
  lemma {:induction false} PlaceholdersNone(s: string)
    requires '%' !in s
    ensures Placeholders(s) == 0
  {
    if |s| >= 2 {
      assert forall ch :: ch in s[1..] ==> ch in s;
      PlaceholdersNone(s[1..]);
    }
  }

  /** Joining '%'-free parts with a '%'-free separator gives '%'-free text. */
  lemma {:induction false} JoinNoPercent(parts: seq<string>, sep: string)
    requires '%' !in sep
    requires forall i :: 0 <= i < |parts| ==> '%' !in parts[i]
    ensures '%' !in Join(parts, sep)
  {
    if |parts| > 1 {
      JoinNoPercent(parts[1..], sep);
    }
  }

  /** Joining `n + 1` copies puts one copy and the separator in front of
      the join of `n` copies. */
  lemma JoinRepeatStep(s: string, sep: string, n: nat)
    requires n >= 1
    ensures Join(Repeat(s, n + 1), sep) == s + sep + Join(Repeat(s, n), sep)
  {
    assert Repeat(s, n + 1)[1..] == Repeat(s, n);
  }

  /** `", ".join(["%s"] * n)` holds exactly `n` placeholders, and it starts
      with the marker's '%' when `n` is positive. */
  lemma {:induction false} JoinMarkers(n: nat)
    ensures Placeholders(Join(Repeat(Marker, n), ", ")) == n
    ensures n > 0 ==> |Join(Repeat(Marker, n), ", ")| > 0 && Join(Repeat(Marker, n), ", ")[0] == '%'
  {
    if n == 1 {
      assert Repeat(Marker, 1) == [Marker];
    } else if n > 1 {
      JoinMarkers(n - 1);
      JoinRepeatStep(Marker, ", ", n - 1);
      PlaceholdersNone(", ");
      PlaceholdersAppend(Marker, ", ");
      var head := Marker + ", ";
      assert head[|head| - 1] == ' ' && head[0] == '%';
      PlaceholdersAppend(head, Join(Repeat(Marker, n - 1), ", "));
    }
  }

  /** '%'-free text in front adds no placeholder. */
  lemma PlainBefore(a: string, e: string)
    requires '%' !in a
    ensures Placeholders(a + e) == Placeholders(e)
  {
    PlaceholdersNone(a);
    assert a == [] || a[|a| - 1] in a;
    PlaceholdersAppend(a, e);
  }

  /** '%'-free text behind, not starting with 's', adds no placeholder. */
  lemma PlainAfter(e: string, a: string)
    requires '%' !in a && (a == [] || a[0] != 's')
    ensures Placeholders(e + a) == Placeholders(e)
  {
    PlaceholdersNone(a);
    PlaceholdersAppend(e, a);
  }
}
