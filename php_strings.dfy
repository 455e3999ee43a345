/**
 * The PHP string built-ins the pipeline relies on, as functions on `string`
 * (PHP strings are byte strings; here a character stands for a byte):
 * `explode`, `implode`, `str_replace` with one search string, and the
 * decimal rendering PHP applies to an integer that is concatenated into text.
 */
module PhpStrings {

  /** `pat` occurs at the very start of `s`. */
  predicate StartsWith(pat: string, s: string) {
    |pat| <= |s| && s[..|pat|] == pat
  }

  /** `pat` occurs somewhere in `s`. */
  ghost predicate Occurs(pat: string, s: string) {
    exists i :: 0 <= i <= |s| && StartsWith(pat, s[i..])
  }

  // ---------------------------------------------------------------------------
  // explode / implode

  /**
   * `explode($sep, $s)`: the pieces of `s` between the occurrences of `sep`,
   * found from left to right without overlap. PHP refuses an empty separator;
   * the pipeline only ever passes "." and ", ".
   */
  function Explode(sep: string, s: string): (pieces: seq<string>)
    requires sep != ""
    ensures |pieces| >= 1
    decreases |s|
  {
    if |s| < |sep| then [s]
    else if s[..|sep|] == sep then [""] + Explode(sep, s[|sep|..])
    else
      var rest := Explode(sep, s[1..]);
      [[s[0]] + rest[0]] + rest[1..]
  }

  /** `implode($glue, $pieces)`: the pieces joined, with `glue` between neighbours. */
  function Implode(glue: string, pieces: seq<string>): string
  {
    if |pieces| == 0 then ""
    else if |pieces| == 1 then pieces[0]
    else pieces[0] + glue + Implode(glue, pieces[1..])
  }

  /** No character of `s` is a character of `sep`. */
  predicate FreeOf(sep: string, s: string) {
    forall k :: 0 <= k < |s| ==> s[k] !in sep
  }

  lemma ImplodeExtendHead(glue: string, x: string, pieces: seq<string>)
    requires |pieces| >= 1
    ensures Implode(glue, [x + pieces[0]] + pieces[1..]) == x + Implode(glue, pieces)
  {
    var ps := [x + pieces[0]] + pieces[1..];
    if |pieces| > 1 {
      assert ps[1..] == pieces[1..];
    }
  }

  /** Joining the pieces of `explode` with the same separator gives back the input. */
  lemma {:induction false} ImplodeExplode(sep: string, s: string)
    requires sep != ""
    ensures Implode(sep, Explode(sep, s)) == s
    decreases |s|
  {
    if |s| < |sep| {
    } else if s[..|sep|] == sep {
      var rest := Explode(sep, s[|sep|..]);
      ImplodeExplode(sep, s[|sep|..]);
      assert ([""] + rest)[1..] == rest;
      assert s == sep + s[|sep|..];
    } else {
      var rest := Explode(sep, s[1..]);
      ImplodeExplode(sep, s[1..]);
      ImplodeExtendHead(sep, [s[0]], rest);
      assert s == [s[0]] + s[1..];
    }
  }

  /** With a one-character separator, no piece of `explode` contains that character. */
  lemma {:induction false} ExplodePiecesFreeOfSeparator(c: char, s: string)
    ensures forall i :: 0 <= i < |Explode([c], s)| ==> c !in Explode([c], s)[i]
    decreases |s|
  {
    var pieces := Explode([c], s);
    if |s| < 1 {
    } else if s[..1] == [c] {
      ExplodePiecesFreeOfSeparator(c, s[1..]);
      assert pieces == [""] + Explode([c], s[1..]);
    } else {
      var rest := Explode([c], s[1..]);
      ExplodePiecesFreeOfSeparator(c, s[1..]);
      assert s[0] != c by { assert s[..1] == [s[0]]; }
      assert pieces == [[s[0]] + rest[0]] + rest[1..];
      forall i | 0 <= i < |pieces| ensures c !in pieces[i] {
        if i == 0 {
          assert c !in rest[0];
        } else {
          assert pieces[i] == rest[i];
        }
      }
    }
  }

  /** Text made of non-separator characters only extends the first piece. */
  lemma {:induction false} ExplodeFreePrefix(sep: string, p: string, t: string)
    requires sep != "" && FreeOf(sep, p)
    ensures Explode(sep, p + t) == [p + Explode(sep, t)[0]] + Explode(sep, t)[1..]
    decreases |p|
  {
    var e := Explode(sep, t);
    if p == "" {
      assert p + t == t && p + e[0] == e[0];
      assert [e[0]] + e[1..] == e;
    } else {
      var s := p + t;
      if |s| < |sep| {
        assert |t| < |sep|;
      } else {
        assert s[0] == p[0] && p[0] !in sep;
        assert sep[0] in sep && s[..|sep|][0] == s[0];
        assert s[1..] == p[1..] + t;
        ExplodeFreePrefix(sep, p[1..], t);
        assert [s[0]] + (p[1..] + e[0]) == p + e[0];
      }
    }
  }

  /**
   * Splitting a join gives back the pieces, provided no piece contains a
   * character of the separator.
   */
  lemma {:induction false} ExplodeImplode(sep: string, pieces: seq<string>)
    requires sep != "" && |pieces| >= 1
    requires forall i :: 0 <= i < |pieces| ==> FreeOf(sep, pieces[i])
    ensures Explode(sep, Implode(sep, pieces)) == pieces
    decreases |pieces|
  {
    var p := pieces[0];
    if |pieces| == 1 {
      ExplodeFreePrefix(sep, p, "");
      assert p + "" == p;
    } else {
      var tail := Implode(sep, pieces[1..]);
      ExplodeImplode(sep, pieces[1..]);
      var s := sep + tail;
      assert s[..|sep|] == sep && s[|sep|..] == tail;
      var e := Explode(sep, s);
      assert e == [""] + pieces[1..];
      assert e[0] == "" && e[1..] == pieces[1..];
      ExplodeFreePrefix(sep, p, s);
      assert p + s == p + sep + tail == Implode(sep, pieces);
      assert p + e[0] == p;
      assert [p] + pieces[1..] == pieces;
    }
  }

  /** The join of two or more pieces ends with the glue and the last piece. */
  lemma {:induction false} ImplodeLast(glue: string, pieces: seq<string>)
    requires |pieces| >= 2
    ensures Implode(glue, pieces) == Implode(glue, pieces[..|pieces| - 1]) + glue + pieces[|pieces| - 1]
    decreases |pieces|
  {
    var init := pieces[..|pieces| - 1];
    if |pieces| == 2 {
      assert init == [pieces[0]];
    } else {
      ImplodeLast(glue, pieces[1..]);
      assert pieces[1..][..|pieces[1..]| - 1] == init[1..];
      assert init[0] == pieces[0];
    }
  }

  // ---------------------------------------------------------------------------
  // str_replace

  /**
   * `str_replace($search, $replace, $subject)`: every occurrence of `search`,
   * found from left to right without overlap, replaced by `replace`. An empty
   * search string leaves the subject unchanged.
   */
  function StrReplace(search: string, replace: string, subject: string): string
    decreases |subject|
  {
    if search == "" || |subject| < |search| then subject
    else if subject[..|search|] == search then replace + StrReplace(search, replace, subject[|search|..])
    else [subject[0]] + StrReplace(search, replace, subject[1..])
  }

  /** A subject in which the search string does not occur is left unchanged. */
  lemma {:induction false} StrReplaceAbsent(search: string, replace: string, subject: string)
    requires search != "" && !Occurs(search, subject)
    ensures StrReplace(search, replace, subject) == subject
    decreases |subject|
  {
    if |subject| >= |search| {
      assert subject[0..] == subject;
      assert !StartsWith(search, subject[0..]);
      assert !Occurs(search, subject[1..]) by {
        forall i | 0 <= i <= |subject[1..]| ensures !StartsWith(search, subject[1..][i..]) {
          assert subject[1..][i..] == subject[i + 1..];
        }
      }
      StrReplaceAbsent(search, replace, subject[1..]);
    }
  }

  /** An occurrence at the start is replaced and the scan resumes right after it. */
  lemma StrReplaceLeading(search: string, replace: string, rest: string)
    requires search != ""
    ensures StrReplace(search, replace, search + rest) == replace + StrReplace(search, replace, rest)
  {
    var s := search + rest;
    assert s[..|search|] == search && s[|search|..] == rest;
  }

  /** No occurrence of `search` starts in `p` and runs on into `q`. */
  predicate NoStraddle(search: string, p: string, q: string) {
    forall i {:trigger StartsWith(search, (p + q)[i..])} :: 0 <= i < |p| < i + |search| ==> !StartsWith(search, (p + q)[i..])
  }

  /** Dropping a prefix of `p` keeps the boundary free of occurrences. */
  lemma NoStraddleDrop(search: string, p: string, q: string, k: nat)
    requires k <= |p| && NoStraddle(search, p, q)
    ensures NoStraddle(search, p[k..], q)
  {
    forall i | 0 <= i < |p[k..]| < i + |search| ensures !StartsWith(search, (p[k..] + q)[i..]) {
      assert (p[k..] + q)[i..] == (p + q)[i + k..];
    }
  }

  /** Without an occurrence at its start, the first character is copied and the scan moves on. */
  lemma StrReplaceCopyHead(search: string, replace: string, s: string, t: string)
    requires search != "" && |s| > 0 && !StartsWith(search, s) && t == s[1..]
    ensures StrReplace(search, replace, s) == [s[0]] + StrReplace(search, replace, t)
  {
    if |s| < |search| {
      assert StrReplace(search, replace, t) == t;
      assert s == [s[0]] + t;
    }
  }

  /**
   * An occurrence at the start of `p + q` lies within `p` and is replaced in
   * both scans, so the equation for the rest of `p` gives the one for `p`.
   */
  lemma AppendMatchStep(search: string, replace: string, p: string, q: string)
    requires search != "" && |search| <= |p| && StartsWith(search, p)
    requires StrReplace(search, replace, p[|search|..] + q)
      == StrReplace(search, replace, p[|search|..]) + StrReplace(search, replace, q)
    ensures StrReplace(search, replace, p + q) == StrReplace(search, replace, p) + StrReplace(search, replace, q)
  {
    var rest := p[|search|..];
    assert p == search + rest && p + q == search + (rest + q);
    StrReplaceLeading(search, replace, rest);
    StrReplaceLeading(search, replace, rest + q);
  }

  /** Without an occurrence at the start of `p + q` there is none at the start of `p`. */
  lemma NoLeadingInPrefix(search: string, p: string, q: string)
    requires !StartsWith(search, p + q)
    ensures !StartsWith(search, p)
  {
    if |search| <= |p| {
      assert p[..|search|] == (p + q)[..|search|];
    }
  }

  /**
   * Without an occurrence at the start of `p + q`, both scans copy the first
   * character of `p`, so the equation for `p[1..]` gives the one for `p`.
   */
  lemma AppendCopyStep(search: string, replace: string, p: string, q: string)
    requires search != "" && p != [] && !StartsWith(search, p + q)
    requires StrReplace(search, replace, p[1..] + q)
      == StrReplace(search, replace, p[1..]) + StrReplace(search, replace, q)
    ensures StrReplace(search, replace, p + q) == StrReplace(search, replace, p) + StrReplace(search, replace, q)
  {
    var t := p[1..];
    assert (p + q)[0] == p[0] && (p + q)[1..] == t + q;
    StrReplaceCopyHead(search, replace, p + q, t + q);
    NoLeadingInPrefix(search, p, q);
    StrReplaceCopyHead(search, replace, p, t);
  }

  /** An occurrence at the start of `p + q` does not straddle the boundary, so it lies within `p`. */
  lemma LeadingOccurrenceInside(search: string, p: string, q: string)
    requires p != [] && NoStraddle(search, p, q) && StartsWith(search, p + q)
    ensures |search| <= |p| && StartsWith(search, p)
  {
    assert (p + q)[0..] == p + q;
    assert |search| <= |p|;
    assert p[..|search|] == (p + q)[..|search|];
  }

  /**
   * The replacement works piece by piece: when no occurrence of the search
   * string starts in `p` and runs on into `q`, replacing in `p + q` is
   * replacing in `p` and then in `q`.
   */
  lemma {:induction false} StrReplaceAppend(search: string, replace: string, p: string, q: string)
    requires search != "" && NoStraddle(search, p, q)
    ensures StrReplace(search, replace, p + q) == StrReplace(search, replace, p) + StrReplace(search, replace, q)
    decreases |p|
  {
    if p == [] {
      assert p + q == q;
    } else if StartsWith(search, p + q) {
      LeadingOccurrenceInside(search, p, q);
      NoStraddleDrop(search, p, q, |search|);
      StrReplaceAppend(search, replace, p[|search|..], q);
      AppendMatchStep(search, replace, p, q);
    } else {
      NoStraddleDrop(search, p, q, 1);
      StrReplaceAppend(search, replace, p[1..], q);
      AppendCopyStep(search, replace, p, q);
    }
  }

  // ---------------------------------------------------------------------------
  // integers as decimal text

  predicate IsDigit(c: char) {
    '0' <= c <= '9'
  }

  predicate AllDigits(s: string) {
    forall k :: 0 <= k < |s| ==> IsDigit(s[k])
  }

  function DigitChar(d: nat): (c: char)
    requires d < 10
    ensures IsDigit(c)
  {
    ('0' as int + d) as char
  }

  /** The decimal text PHP produces for a non-negative integer (no sign, no leading zeros). */
  function IntToString(n: nat): (s: string)
    ensures |s| >= 1 && AllDigits(s)
    ensures |s| > 1 ==> s[0] != '0'
  {
    if n < 10 then [DigitChar(n)] else IntToString(n / 10) + [DigitChar(n % 10)]
  }

  /** The number a string of decimal digits denotes. */
  function DigitsValue(s: string): nat
    requires AllDigits(s)
  {
    if s == "" then 0
    else DigitsValue(s[..|s| - 1]) * 10 + (s[|s| - 1] as int - '0' as int)
  }

  /** Reading back the decimal text of `n` gives `n`. */
  lemma {:induction false} DigitsValueOfIntToString(n: nat)
    ensures DigitsValue(IntToString(n)) == n
  {
    var s := IntToString(n);
    if n >= 10 {
      DigitsValueOfIntToString(n / 10);
      assert s[..|s| - 1] == IntToString(n / 10);
    }
  }
}
