/**
  The Python built-ins the quiz generator relies on, on strings as sequences
  of Unicode scalar values: `strip`, `lstrip`, `split`, `lower`, `join`,
  slicing and the decimal rendering of an integer in an f-string, plus the
  two exceptions the generator can raise.
 */
module PyStr {

  /** An exception raised by a built-in: `s.split()[0]` on no token, `xs.index(x)` on a missing x. */
  datatype PyError = IndexError | ValueError

  datatype Result<T> = Ok(value: T) | Err(error: PyError)

  datatype Option<T> = None | Some(value: T)

  function Min(a: int, b: int): int { if a <= b then a else b }

  /**
    Python's `str.isspace()`: the ASCII controls tab to carriage return and
    file to unit separator, the space, and the Unicode spaces and separators
    U+0085, U+00A0, U+1680, U+2000 to U+200A, U+2028, U+2029, U+202F, U+205F
    and U+3000.
   */
  predicate IsSpace(c: char) {
    || '\t' <= c <= '\r' || '\U{1c}' <= c <= ' '
    || c == '\U{85}' || c == '\U{a0}' || c == '\U{1680}'
    || '\U{2000}' <= c <= '\U{200a}'
    || c == '\U{2028}' || c == '\U{2029}' || c == '\U{202f}' || c == '\U{205f}' || c == '\U{3000}'
  }

  /** The characters `strip()` and `split()` with no argument treat as whitespace. */
  const Whitespace: set<char> := set c: char | '\t' <= c <= '\U{3000}' && IsSpace(c)

  /** A word as `str.split()` returns it: non-empty and free of whitespace. */
  predicate IsToken(w: string) {
    w != [] && forall k :: 0 <= k < |w| ==> w[k] !in Whitespace
  }

  /** `s[:n]`. */
  function Take<T>(s: seq<T>, n: nat): (r: seq<T>)
    ensures |r| == Min(n, |s|) && r == s[..|r|]
  {
    if |s| <= n then s else s[..n]
  }

  /** `s.startswith(c)` for one character. */
  predicate StartsWith(s: string, c: char) {
    |s| > 0 && s[0] == c
  }

  // ---------------------------------------------------------------- strip

  /** The length of the leading run of characters of `s` that are in `cs`. */
  function LeadLen(s: string, cs: set<char>): (n: nat)
    ensures n <= |s|
    ensures forall k :: 0 <= k < n ==> s[k] in cs
    ensures n < |s| ==> s[n] !in cs
  {
    if s != [] && s[0] in cs then 1 + LeadLen(s[1..], cs) else 0
  }

  /** The length of the trailing run of characters of `s` that are in `cs`. */
  function TrailLen(s: string, cs: set<char>): (n: nat)
    ensures n <= |s|
    ensures forall k :: |s| - n <= k < |s| ==> s[k] in cs
    ensures n < |s| ==> s[|s| - n - 1] !in cs
  {
    if s != [] && s[|s| - 1] in cs then 1 + TrailLen(s[..|s| - 1], cs) else 0
  }

  /** `s.lstrip(chars)`. */
  function TrimLeft(s: string, cs: set<char>): string {
    s[LeadLen(s, cs)..]
  }

  /** `s.rstrip(chars)`. */
  function TrimRight(s: string, cs: set<char>): string {
    s[..|s| - TrailLen(s, cs)]
  }

  /**
    `s.strip(chars)`, and `s.strip()` with `cs == Whitespace`: what is left of
    `s` between its leading and its trailing run of characters in `cs`; empty
    exactly when every character of `s` is in `cs`.
   */
  function Trim(s: string, cs: set<char>): (r: string)
    ensures |r| <= |s|
    ensures r != [] ==> r[0] !in cs && r[|r| - 1] !in cs
    ensures r == [] <==> forall k :: 0 <= k < |s| ==> s[k] in cs
  {
    var t := TrimLeft(s, cs);
    var r := TrimRight(t, cs);
    assert r != [] ==> r[0] == s[LeadLen(s, cs)];
    r
  }

  /** The stripped text as a slice of `s`. */
  lemma TrimSlice(s: string, cs: set<char>)
    ensures var i := LeadLen(s, cs); var r := Trim(s, cs); i + |r| <= |s| && r == s[i..i + |r|]
  {
  }

  /** Stripping adds no character. */
  lemma TrimAbsent(s: string, cs: set<char>, c: char)
    requires c !in s
    ensures c !in TrimLeft(s, cs) && c !in Trim(s, cs)
  {
    TrimSlice(s, cs);
  }

  /** Stripping twice is stripping once (line 172 of the plain path strips an already stripped sentence). */
  lemma TrimIdempotent(s: string, cs: set<char>)
    ensures Trim(Trim(s, cs), cs) == Trim(s, cs)
  {
    var t := Trim(s, cs);
    if t != [] {
      assert TrimLeft(t, cs) == t;
      assert TrimRight(t, cs) == t;
    }
  }

  // ---------------------------------------------------------------- split on a separator

  /** `sep.join(pieces)`. */
  function Join(pieces: seq<string>, sep: string): string
  {
    if |pieces| == 0 then ""
    else if |pieces| == 1 then pieces[0]
    else pieces[0] + sep + Join(pieces[1..], sep)
  }

  /**
    `s.split(sep)` for a one-character separator: the pieces between the
    separators, in order, always at least one; the first piece is the
    longest prefix that holds no separator.
   */
  function Split(s: string, sep: char): (r: seq<string>)
    ensures |r| >= 1
    ensures forall i :: 0 <= i < |r| ==> sep !in r[i]
    ensures |r[0]| <= |s| && r[0] == s[..|r[0]|] && (|r[0]| < |s| ==> s[|r[0]|] == sep)
  {
    if s == [] then [[]]
    else
      var rest := Split(s[1..], sep);
      if s[0] == sep then [[]] + rest
      else
        assert [s[0]] + rest[0] == s[..1 + |rest[0]|];
        [[s[0]] + rest[0]] + rest[1..]
  }

  lemma JoinCons(x: char, p: string, ps: seq<string>, sep: string)
    ensures Join([[x] + p] + ps, sep) == [x] + Join([p] + ps, sep)
  {
    if |ps| > 0 {
      assert ([[x] + p] + ps)[1..] == ps;
      assert ([p] + ps)[1..] == ps;
    }
  }

  /** Joining the pieces with the separator gives back the string. */
  lemma {:induction false} SplitJoin(s: string, sep: char)
    ensures Join(Split(s, sep), [sep]) == s
  {
    if s != [] {
      var rest := Split(s[1..], sep);
      SplitJoin(s[1..], sep);
      if s[0] == sep {
        assert ([[]] + rest)[1..] == rest;
      } else {
        JoinCons(s[0], rest[0], rest[1..], [sep]);
        assert [rest[0]] + rest[1..] == rest;
      }
    }
  }

  /** A string without the separator is one piece. */
  lemma {:induction false} SplitNoSep(s: string, sep: char)
    requires sep !in s
    ensures Split(s, sep) == [s]
  {
    if s != [] {
      assert sep !in s[1..];
      SplitNoSep(s[1..], sep);
      assert [s[0]] + s[1..] == s;
    }
  }

  /** Splitting `a + sep + b` gives the pieces of `a` followed by the pieces of `b`. */
  lemma {:induction false} SplitAppend(a: string, b: string, sep: char)
    ensures Split(a + [sep] + b, sep) == Split(a, sep) + Split(b, sep)
  {
    var s := a + [sep] + b;
    if a == [] {
      assert s[1..] == b;
    } else {
      assert s[1..] == a[1..] + [sep] + b;
      SplitAppend(a[1..], b, sep);
    }
  }

  /** Splitting a join of separator-free pieces gives back the pieces. */
  lemma {:induction false} JoinSplit(pieces: seq<string>, sep: char)
    requires |pieces| >= 1
    requires forall i :: 0 <= i < |pieces| ==> sep !in pieces[i]
    ensures Split(Join(pieces, [sep]), sep) == pieces
  {
    SplitNoSep(pieces[0], sep);
    if |pieces| > 1 {
      JoinSplit(pieces[1..], sep);
      SplitAppend(pieces[0], Join(pieces[1..], [sep]), sep);
      assert [pieces[0]] + pieces[1..] == pieces;
    }
  }

  /** When `s` holds a `c`, `s.split(c)[0]` is the text before the first `c`. */
  lemma SplitHeadPrefix(s: string, c: char)
    requires c in s
    ensures var i := |Split(s, c)[0]|; i < |s| && s[i] == c && c !in s[..i] && Split(s, c)[0] == s[..i]
  {
    var p := Split(s, c)[0];
    assert |p| == |s| ==> p == s;
  }

  // ---------------------------------------------------------------- split on whitespace

  /** The length of the leading run of non-whitespace characters of `t`. */
  function TokenEnd(t: string): (n: nat)
    ensures n <= |t|
    ensures forall k :: 0 <= k < n ==> t[k] !in Whitespace
    ensures n < |t| ==> t[n] in Whitespace
  {
    if t == [] || t[0] in Whitespace then 0 else 1 + TokenEnd(t[1..])
  }

  /** Every element is a token. */
  predicate AllTokens(ws: seq<string>) {
    forall i :: 0 <= i < |ws| ==> IsToken(ws[i])
  }

  lemma AllTokensCons(w: string, ws: seq<string>)
    requires IsToken(w) && AllTokens(ws)
    ensures AllTokens([w] + ws)
  {
  }

  /**
    `s.split()`: the maximal runs of non-whitespace characters, in order; it is
    empty exactly when `s` is all whitespace.
   */
  function SplitWs(s: string): (r: seq<string>)
    ensures AllTokens(r)
    ensures r == [] <==> forall k :: 0 <= k < |s| ==> s[k] in Whitespace
    decreases |s|
  {
    if s == [] then []
    else if s[0] in Whitespace then SplitWs(s[1..])
    else
      var n := TokenEnd(s);
      TokenEndPositive(s);
      var rest := SplitWs(s[n..]);
      AllTokensCons(s[..n], rest);
      [s[..n]] + rest
  }

  lemma TokenEndPositive(t: string)
    requires t != [] && t[0] !in Whitespace
    ensures 1 <= TokenEnd(t) && IsToken(t[..TokenEnd(t)])
  {
  }

  /** A character absent from `s` is absent from every word of `s.split()`. */
  lemma {:induction false} SplitWsAbsent(s: string, c: char)
    requires c !in s
    ensures forall i :: 0 <= i < |SplitWs(s)| ==> c !in SplitWs(s)[i]
    decreases |s|
  {
    if s != [] {
      assert c !in s[1..];
      if s[0] !in Whitespace {
        var n := TokenEnd(s);
        TokenEndPositive(s);
        assert c !in s[..n] && c !in s[n..];
        SplitWsAbsent(s[n..], c);
      } else {
        SplitWsAbsent(s[1..], c);
      }
    }
  }

  /** `w` is the first `split()` token of `s`, starting at offset `i`: only whitespace before it, whitespace or the end after it. */
  ghost predicate FirstTokenAt(w: string, s: string, i: nat) {
    && IsToken(w)
    && i + |w| <= |s|
    && (forall k :: 0 <= k < i ==> s[k] in Whitespace)
    && s[i..i + |w|] == w
    && (i + |w| < |s| ==> s[i + |w|] in Whitespace)
  }

  /** The first element of `s.split()` is the first run of non-whitespace characters of `s`. */
  lemma {:induction false} SplitWsHead(s: string)
    requires SplitWs(s) != []
    ensures exists i: nat :: FirstTokenAt(SplitWs(s)[0], s, i)
    decreases |s|
  {
    if s[0] in Whitespace {
      var t := s[1..];
      assert SplitWs(s) == SplitWs(t);
      var w := SplitWs(t)[0];
      SplitWsHead(t);
      var i: nat :| FirstTokenAt(w, t, i);
      FirstTokenAtShift(w, s, i);
    } else {
      var n := TokenEnd(s);
      TokenEndPositive(s);
      assert SplitWs(s)[0] == s[..n];
      assert FirstTokenAt(SplitWs(s)[0], s, 0);
    }
  }

  lemma FirstTokenAtShift(w: string, s: string, i: nat)
    requires s != [] && s[0] in Whitespace && FirstTokenAt(w, s[1..], i)
    ensures FirstTokenAt(w, s, i + 1)
  {
    var t := s[1..];
    assert s[i + 1..i + 1 + |w|] == t[i..i + |w|];
    assert forall k :: 1 <= k < i + 1 ==> s[k] == t[k - 1];
    assert i + 1 + |w| < |s| ==> s[i + 1 + |w|] == t[i + |w|];
  }

  /** Leading whitespace does not change `split()`. */
  lemma SplitWsSpace(c: char, s: string)
    requires c in Whitespace
    ensures SplitWs([c] + s) == SplitWs(s)
  {
    assert ([c] + s)[1..] == s;
  }

  lemma TokenEndOf(w: string, rest: string)
    requires IsToken(w)
    requires rest == [] || rest[0] in Whitespace
    ensures TokenEnd(w + rest) == |w|
    decreases |w|
  {
    var t := w + rest;
    assert t[0] == w[0];
    if |w| == 1 {
      assert t[1..] == rest;
    } else {
      assert t[1..] == w[1..] + rest;
      TokenEndOf(w[1..], rest);
    }
  }

  lemma SplitWsToken(w: string)
    requires IsToken(w)
    ensures SplitWs(w) == [w]
  {
    TokenEndOf(w, "");
    assert w + "" == w;
    assert w[|w|..] == [];
  }

  lemma SplitWsTokenSpace(w: string, tail: string)
    requires IsToken(w)
    ensures SplitWs(w + " " + tail) == [w] + SplitWs(tail)
  {
    var s := w + " " + tail;
    assert s[0] == w[0];
    TokenEndOf(w, " " + tail);
    assert w + (" " + tail) == s;
    assert s[..|w|] == w;
    assert s[|w|..] == [' '] + tail;
    SplitWsSpace(' ', tail);
  }

  /** Splitting words joined by single spaces gives back the words. */
  lemma {:induction false} JoinSpaceSplit(ws: seq<string>)
    requires AllTokens(ws)
    ensures SplitWs(Join(ws, " ")) == ws
  {
    if |ws| == 1 {
      SplitWsToken(ws[0]);
    } else if |ws| > 1 {
      SplitWsTokenSpace(ws[0], Join(ws[1..], " "));
      JoinSpaceSplit(ws[1..]);
      assert [ws[0]] + ws[1..] == ws;
    }
  }

  // ---------------------------------------------------------------- case, numbers

  /** `c.lower()` on the ASCII letters; other characters are left as they are. */
  function LowerChar(c: char): (r: char)
  {
    if 'A' <= c <= 'Z' then (c as int - 'A' as int + 'a' as int) as char else c
  }

  /** `s.lower()`, character by character. */
  function Lower(s: string): (r: string)
    ensures |r| == |s|
    ensures forall k :: 0 <= k < |s| ==> r[k] == LowerChar(s[k])
  {
    if s == [] then [] else [LowerChar(s[0])] + Lower(s[1..])
  }

  function Digit(d: nat): (c: char)
    requires d < 10
    ensures '0' <= c <= '9' && c as int - '0' as int == d
  {
    ('0' as int + d) as char
  }

  /** The value of a string of decimal digits. */
  function DecimalValue(s: string): nat
    requires forall k :: 0 <= k < |s| ==> '0' <= s[k] <= '9'
  {
    if s == [] then 0
    else DecimalValue(s[..|s| - 1]) * 10 + (s[|s| - 1] as int - '0' as int)
  }

  /** `f"{n}"` for a non-negative integer: its decimal digits, without leading zeros. */
  function NatToString(n: nat): (r: string)
    ensures r != [] && forall k :: 0 <= k < |r| ==> '0' <= r[k] <= '9'
    ensures |r| > 1 ==> r[0] != '0'
  {
    if n < 10 then [Digit(n)] else NatToString(n / 10) + [Digit(n % 10)]
  }

  /** Reading the rendered digits back gives the number. */
  lemma {:induction false} NatToStringValue(n: nat)
    ensures DecimalValue(NatToString(n)) == n
  {
    if n >= 10 {
      NatToStringValue(n / 10);
      var r := NatToString(n);
      assert r[..|r| - 1] == NatToString(n / 10);
    }
  }
}
