/**
  The two string operations the game applies to every console line:
  Python's `str.strip()` (with no argument) and `str.lower()`.

  `IsSpace` is exactly the set of characters for which Python's
  `str.isspace()` holds, so `Strip` removes what Python removes.
  `LowerChar` covers every character that Python lowers to a single
  ASCII or Latin-1 letter (so "KYLLÄ" lowers to "kyllä", and the KELVIN
  SIGN to "k"); every other character is left unchanged.
 */
module Text {

  /** Python's whitespace characters. */
  predicate IsSpace(c: char) {
    || ('\t' <= c <= '\r')
    || ('\U{1C}' <= c <= '\U{1F}')
    || c == ' ' || c == '\U{85}' || c == '\U{A0}' || c == '\U{1680}'
    || ('\U{2000}' <= c <= '\U{200A}')
    || c == '\U{2028}' || c == '\U{2029}' || c == '\U{202F}' || c == '\U{205F}' || c == '\U{3000}'
  }

  predicate AllSpace(s: string) {
    forall i :: 0 <= i < |s| ==> IsSpace(s[i])
  }

  /** An ASCII or Latin-1 capital, whose small form is 32 code points further on. */
  predicate IsShiftedUpper(c: char) {
    ('A' <= c <= 'Z') || ('\U{C0}' <= c <= '\U{DE}' && c != '\U{D7}')
  }

  /**
    A capital letter that `LowerChar` maps to its small form: the shifted
    capitals and the four other characters Python lowers to a Latin-1
    letter (Y WITH DIAERESIS, CAPITAL SHARP S, KELVIN SIGN, ANGSTROM SIGN).
   */
  predicate IsUpper(c: char) {
    IsShiftedUpper(c) || c == '\U{178}' || c == '\U{1E9E}' || c == '\U{212A}' || c == '\U{212B}'
  }

  predicate NoUpper(s: string) {
    forall i :: 0 <= i < |s| ==> !IsUpper(s[i])
  }

  /** Neither end of `s` is whitespace. */
  predicate Trimmed(s: string) {
    s == [] || (!IsSpace(s[0]) && !IsSpace(s[|s| - 1]))
  }

  /** Removes the leading whitespace of `s`; `TrimLeftIsSuffix` says what is removed. */
  function TrimLeft(s: string): (r: string)
    ensures |r| <= |s|
    ensures r == [] || !IsSpace(r[0])
  {
    if |s| > 0 && IsSpace(s[0]) then TrimLeft(s[1..]) else s
  }

  /** Removes the trailing whitespace of `s`; `TrimRightIsPrefix` says what is removed. */
  function TrimRight(s: string): (r: string)
    ensures |r| <= |s|
    ensures r == [] || !IsSpace(r[|r| - 1])
  {
    if |s| > 0 && IsSpace(s[|s| - 1]) then TrimRight(s[..|s| - 1]) else s
  }

  lemma {:induction false} TrimLeftIsSuffix(s: string)
    ensures var r := TrimLeft(s);
            r == s[|s| - |r|..] && AllSpace(s[..|s| - |r|])
  {
    if |s| > 0 && IsSpace(s[0]) {
      TrimLeftIsSuffix(s[1..]);
      var r := TrimLeft(s);
      assert s[1..][|s| - 1 - |r|..] == s[|s| - |r|..];
      forall i | 0 <= i < |s| - |r| ensures IsSpace(s[i]) {
        if i > 0 { assert s[1..][..|s| - 1 - |r|][i - 1] == s[i]; }
      }
    }
  }

  lemma {:induction false} TrimRightIsPrefix(s: string)
    ensures var r := TrimRight(s);
            r == s[..|r|] && AllSpace(s[|r|..])
  {
    if |s| > 0 && IsSpace(s[|s| - 1]) {
      var n := |s| - 1;
      TrimRightIsPrefix(s[..n]);
      var r := TrimRight(s);
      assert s[..n][..|r|] == s[..|r|];
      forall i | |r| <= i < |s| ensures IsSpace(s[i]) {
        if i < n { assert s[..n][|r|..][i - |r|] == s[i]; }
      }
    }
  }

  /** Python's `s.strip()`; `StripIsInfix` states what it removes. */
  function Strip(s: string): (r: string)
    ensures Trimmed(r)
    ensures |r| <= |s|
  {
    var t := TrimLeft(s);
    TrimRightIsPrefix(t);
    TrimRight(t)
  }

  /** `s` is `Strip(s)` with whitespace, and nothing else, on both sides. */
  lemma StripIsInfix(s: string)
    ensures var r := Strip(s);
            exists i :: 0 <= i <= |s| - |r| && r == s[i..i + |r|]
                        && AllSpace(s[..i]) && AllSpace(s[i + |r|..])
  {
    var t := TrimLeft(s);
    var r := TrimRight(t);
    var i := |s| - |t|;
    TrimLeftIsSuffix(s);
    TrimRightIsPrefix(t);
    assert s[i..i + |r|] == r;
    assert s[i + |r|..] == t[|r|..];
  }

  /** Python's `c.lower()` on the characters listed above. */
  function LowerChar(c: char): (d: char)
    ensures !IsUpper(d)
    ensures !IsUpper(c) ==> d == c
    ensures IsShiftedUpper(c) ==> d as int == c as int + ('a' as int - 'A' as int)
    ensures c == '\U{178}' ==> d == '\U{FF}'
    ensures c == '\U{1E9E}' ==> d == '\U{DF}'
    ensures c == '\U{212A}' ==> d == 'k'
    ensures c == '\U{212B}' ==> d == '\U{E5}'
    ensures IsSpace(d) <==> IsSpace(c)
  {
    if IsShiftedUpper(c) then (c as int + 32) as char
    else if c == '\U{178}' then '\U{FF}'
    else if c == '\U{1E9E}' then '\U{DF}'
    else if c == '\U{212A}' then 'k'
    else if c == '\U{212B}' then '\U{E5}'
    else c
  }

  /** Python's `s.lower()`, character by character. */
  function Lower(s: string): (r: string)
    ensures |r| == |s|
    ensures forall i :: 0 <= i < |s| ==> r[i] == LowerChar(s[i])
  {
    if s == [] then [] else [LowerChar(s[0])] + Lower(s[1..])
  }

  /** `s.strip().lower()`, the cleaning every answer line goes through. */
  function Clean(s: string): (r: string)
    ensures Trimmed(r) && NoUpper(r)
    ensures |r| <= |s|
  {
    Lower(Strip(s))
  }

  lemma LowerIdempotent(s: string)
    ensures Lower(Lower(s)) == Lower(s)
  {
  }

  /** Lowering never creates nor destroys whitespace, so the order of the two does not matter. */
  lemma {:induction false} TrimLeftLower(s: string)
    ensures TrimLeft(Lower(s)) == Lower(TrimLeft(s))
  {
    if |s| > 0 {
      assert Lower(s)[1..] == Lower(s[1..]);
      TrimLeftLower(s[1..]);
    }
  }

  lemma {:induction false} TrimRightLower(s: string)
    ensures TrimRight(Lower(s)) == Lower(TrimRight(s))
  {
    if |s| > 0 {
      var n := |s| - 1;
      assert Lower(s)[..n] == Lower(s[..n]);
      TrimRightLower(s[..n]);
    }
  }

  lemma StripLower(s: string)
    ensures Strip(Lower(s)) == Lower(Strip(s))
  {
    TrimLeftLower(s);
    TrimRightLower(TrimLeft(s));
  }

  /** Cleaning ignores letter case: strings that lower to the same text clean to the same text. */
  lemma CleanIgnoresCase(s: string, t: string)
    requires Lower(s) == Lower(t)
    ensures Clean(s) == Clean(t)
  {
    StripLower(s);
    StripLower(t);
    LowerIdempotent(Strip(s));
    LowerIdempotent(Strip(t));
  }

  lemma {:induction false} TrimLeftPadded(ws: string, s: string)
    requires AllSpace(ws)
    ensures TrimLeft(ws + s) == TrimLeft(s)
  {
    if ws != [] {
      var u := ws + s;
      assert u[0] == ws[0] && IsSpace(u[0]);
      assert TrimLeft(u) == TrimLeft(u[1..]);
      assert u[1..] == ws[1..] + s;
      assert AllSpace(ws[1..]) by {
        forall i | 0 <= i < |ws[1..]| ensures IsSpace(ws[1..][i]) { assert ws[1..][i] == ws[i + 1]; }
      }
      TrimLeftPadded(ws[1..], s);
    } else {
      assert ws + s == s;
    }
  }

  lemma {:induction false} TrimRightPadded(s: string, ws: string)
    requires AllSpace(ws)
    ensures TrimRight(s + ws) == TrimRight(s)
  {
    if ws != [] {
      var n := |ws| - 1;
      var u := s + ws;
      assert u[|u| - 1] == ws[n] && IsSpace(u[|u| - 1]);
      assert TrimRight(u) == TrimRight(u[..|u| - 1]);
      assert u[..|u| - 1] == s + ws[..n];
      assert AllSpace(ws[..n]) by {
        forall i | 0 <= i < n ensures IsSpace(ws[..n][i]) { assert ws[..n][i] == ws[i]; }
      }
      TrimRightPadded(s, ws[..n]);
    } else {
      assert s + ws == s;
    }
  }

  /** When `s` has a non-space character, trimming the left of `s + t` leaves `t` intact. */
  lemma {:induction false} TrimLeftAppend(s: string, t: string)
    requires !AllSpace(s)
    ensures TrimLeft(s + t) == TrimLeft(s) + t
  {
    if IsSpace(s[0]) {
      assert (s + t)[1..] == s[1..] + t;
      assert !AllSpace(s[1..]) by {
        var i :| 0 <= i < |s| && !IsSpace(s[i]);
        assert s[1..][i - 1] == s[i];
      }
      TrimLeftAppend(s[1..], t);
    }
  }

  lemma AllSpaceTrims(s: string)
    requires AllSpace(s)
    ensures TrimLeft(s) == [] && TrimRight(s) == []
  {
  }

  /** Surrounding whitespace does not change the result of `Strip`. */
  lemma StripPadded(ws: string, s: string, ws': string)
    requires AllSpace(ws) && AllSpace(ws')
    ensures Strip(ws + s + ws') == Strip(s)
  {
    assert ws + s + ws' == ws + (s + ws');
    TrimLeftPadded(ws, s + ws');
    if AllSpace(s) {
      assert AllSpace(s + ws') by {
        forall i | 0 <= i < |s + ws'|
          ensures IsSpace((s + ws')[i])
        {
          if i < |s| { assert (s + ws')[i] == s[i]; } else { assert (s + ws')[i] == ws'[i - |s|]; }
        }
      }
      AllSpaceTrims(s + ws');
      AllSpaceTrims(s);
    } else {
      TrimLeftAppend(s, ws');
      TrimRightPadded(TrimLeft(s), ws');
    }
  }

  /** Cleaning ignores surrounding whitespace. */
  lemma CleanPadded(ws: string, s: string, ws': string)
    requires AllSpace(ws) && AllSpace(ws')
    ensures Clean(ws + s + ws') == Clean(s)
  {
    StripPadded(ws, s, ws');
  }

  /** A string that is already clean is its own cleaning. */
  lemma CleanFixed(s: string)
    requires Trimmed(s) && NoUpper(s)
    ensures Clean(s) == s
  {
  }
}
