/**
 * The escaping used for values inside double-quoted dotenv lines
 * (internal/convert/convert.go): `escapeEnvValue` rewrites five characters
 * into two-character escapes, `unescapeEnvValue` undoes them and keeps any
 * other backslash as it is.
 */
module EnvEscape {

  /** The five characters `escapeEnvValue` rewrites. */
  predicate NeedsEscape(c: char) {
    c == '\\' || c == '"' || c == '\n' || c == '\r' || c == '\t'
  }

  /** The characters that may follow a backslash in an escape `unescapeEnvValue` recognises. */
  predicate IsEscapeLetter(c: char) {
    c == 'n' || c == 'r' || c == 't' || c == '\\' || c == '"'
  }

  /**
   * How `escapeEnvValue` writes one character: the `switch` on each rune. One
   * of the five becomes a backslash and an escape letter, any other character
   * stays as it is.
   */
  function EscapeChar(c: char): (r: string)
    ensures NeedsEscape(c) ==> |r| == 2 && r[0] == '\\' && IsEscapeLetter(r[1])
    ensures !NeedsEscape(c) ==> r == [c]
  {
    if c == '\\' then "\\\\"
    else if c == '"' then "\\\""
    else if c == '\n' then "\\n"
    else if c == '\r' then "\\r"
    else if c == '\t' then "\\t"
    else [c]
  }

  /**
   * What `unescapeEnvValue` writes for a backslash followed by `n`: the
   * `switch` on the next byte. An escape letter gives back the one character
   * whose escape it is; any other character is kept with its backslash.
   */
  function UnescapePair(n: char): (r: string)
    ensures IsEscapeLetter(n) ==> |r| == 1 && NeedsEscape(r[0]) && EscapeChar(r[0]) == ['\\', n]
    ensures !IsEscapeLetter(n) ==> r == ['\\', n]
  {
    if n == 'n' then "\n"
    else if n == 'r' then "\r"
    else if n == 't' then "\t"
    else if n == '\\' then "\\"
    else if n == '"' then "\""
    else ['\\', n]
  }

  /** The specification of `escapeEnvValue`. */
  function Escape(s: string): (r: string)
    ensures |r| >= |s|
    ensures forall i :: 0 <= i < |r| ==> r[i] != '\n' && r[i] != '\r' && r[i] != '\t'
  {
    if s == [] then [] else EscapeChar(s[0]) + Escape(s[1..])
  }

  /** The specification of `unescapeEnvValue`: total, never longer than its input. */
  function Unescape(s: string): (r: string)
    ensures |r| <= |s|
  {
    if s == [] then []
    else if s[0] == '\\' && |s| >= 2 then UnescapePair(s[1]) + Unescape(s[2..])
    else [s[0]] + Unescape(s[1..])
  }

  /**
   * The strings `Escape` produces: every backslash starts one of the escapes
   * `\\ \" \n \r \t`, and no raw double quote, LF, CR or TAB occurs.
   */
  predicate WellEscaped(t: string) {
    if t == [] then true
    else if t[0] == '\\' then |t| >= 2 && IsEscapeLetter(t[1]) && WellEscaped(t[2..])
    else !NeedsEscape(t[0]) && WellEscaped(t[1..])
  }

  /** `escapeEnvValue`: a left-to-right pass appending to a builder. */
  method EscapeEnvValue(s: string) returns (r: string)
    ensures r == Escape(s)
  {
    r := "";
    var i := 0;
    while i < |s|
      invariant 0 <= i <= |s|
      invariant r + Escape(s[i..]) == Escape(s)
    {
      assert s[i..][1..] == s[i + 1..];
      var c := s[i];
      AppendAssoc(r, EscapeChar(c), Escape(s[i + 1..]));
      r := r + EscapeChar(c);
      i := i + 1;
    }
  }

  /** `unescapeEnvValue`: an index loop that consumes a second character after a backslash. */
  method UnescapeEnvValue(s: string) returns (r: string)
    ensures r == Unescape(s)
  {
    r := "";
    var i := 0;
    while i < |s|
      invariant 0 <= i <= |s|
      invariant r + Unescape(s[i..]) == Unescape(s)
    {
      var c := s[i];
      if c == '\\' && i + 1 < |s| {
        var n := s[i + 1];
        UnescapeAdvance(s, i, r);
        r := r + UnescapePair(n);
        i := i + 2;
      } else {
        UnescapeAdvance(s, i, r);
        r := r + [c];
        i := i + 1;
      }
    }
  }

  /** One pass of `unescapeEnvValue`'s loop keeps the output so far and the rest adding up to the whole. */
  lemma UnescapeAdvance(s: string, i: nat, r: string)
    requires i < |s| && r + Unescape(s[i..]) == Unescape(s)
    ensures s[i] == '\\' && i + 1 < |s| ==> (r + UnescapePair(s[i + 1])) + Unescape(s[i + 2..]) == Unescape(s)
    ensures !(s[i] == '\\' && i + 1 < |s|) ==> (r + [s[i]]) + Unescape(s[i + 1..]) == Unescape(s)
  {
    var t := s[i..];
    if s[i] == '\\' && i + 1 < |s| {
      assert t[2..] == s[i + 2..];
      AppendAssoc(r, UnescapePair(s[i + 1]), Unescape(s[i + 2..]));
    } else {
      assert t[1..] == s[i + 1..];
      AppendAssoc(r, [s[i]], Unescape(s[i + 1..]));
    }
  }

  /** Concatenation of strings is associative. */
  lemma AppendAssoc(a: string, b: string, c: string)
    ensures (a + b) + c == a + (b + c)
  {
  }

  /** Unescaping undoes escaping, for every string. */
  lemma {:induction false} UnescapeEscape(s: string)
    ensures Unescape(Escape(s)) == s
  {
    if s != [] {
      var rest := Escape(s[1..]);
      UnescapeEscape(s[1..]);
      var e := EscapeChar(s[0]);
      if NeedsEscape(s[0]) {
        assert (e + rest)[2..] == rest;
      } else {
        assert (e + rest)[1..] == rest;
      }
      assert s == [s[0]] + s[1..];
    }
  }

  /** Everything `Escape` produces is well escaped. */
  lemma {:induction false} EscapeWellEscaped(s: string)
    ensures WellEscaped(Escape(s))
  {
    if s != [] {
      var rest := Escape(s[1..]);
      EscapeWellEscaped(s[1..]);
      var e := EscapeChar(s[0]);
      if NeedsEscape(s[0]) {
        assert (e + rest)[2..] == rest;
      } else {
        assert (e + rest)[1..] == rest;
      }
    }
  }

  /** Escaping undoes unescaping on well-escaped text, so `Escape` is a bijection onto it. */
  lemma {:induction false} EscapeUnescape(t: string)
    requires WellEscaped(t)
    ensures Escape(Unescape(t)) == t
  {
    if t != [] {
      if t[0] == '\\' {
        EscapeUnescape(t[2..]);
        var c := UnescapePair(t[1])[0];
        assert UnescapePair(t[1]) == [c];
        assert EscapeChar(c) == t[..2];
        EscapeCons(c, Unescape(t[2..]));
        assert t == t[..2] + t[2..];
      } else {
        EscapeUnescape(t[1..]);
        EscapeCons(t[0], Unescape(t[1..]));
        assert t == [t[0]] + t[1..];
      }
    }
  }

  /** Escaping a string one character longer at the front. */
  lemma EscapeCons(c: char, rest: string)
    ensures Escape([c] + rest) == EscapeChar(c) + Escape(rest)
  {
    assert ([c] + rest)[1..] == rest;
  }

  /** Characters other than the five pass through `Escape` unchanged. */
  lemma {:induction false} EscapePlain(s: string)
    requires forall i :: 0 <= i < |s| ==> !NeedsEscape(s[i])
    ensures Escape(s) == s
  {
    if s != [] {
      EscapePlain(s[1..]);
      assert s == [s[0]] + s[1..];
    }
  }

  /** A backslash before any other character is kept together with that character. */
  lemma UnescapeUnknown(n: char, rest: string)
    requires !IsEscapeLetter(n)
    ensures Unescape(['\\', n] + rest) == ['\\', n] + Unescape(rest)
  {
  }

  /**
   * Text that `unescapeEnvValue` reads without a backslash left over at the
   * end: scanning from the left, every backslash it meets has a character
   * after it to pair with.
   */
  predicate Closed(t: string) {
    if t == [] then true
    else if t[0] == '\\' then |t| >= 2 && Closed(t[2..])
    else Closed(t[1..])
  }

  /** Well-escaped text is closed. */
  lemma {:induction false} WellEscapedClosed(t: string)
    requires WellEscaped(t)
    ensures Closed(t)
  {
    if t != [] {
      if t[0] == '\\' {
        WellEscapedClosed(t[2..]);
      } else {
        WellEscapedClosed(t[1..]);
      }
    }
  }

  /**
   * A lone backslash at the end is kept as it is exactly when the text before
   * it is closed; otherwise it pairs with the backslash left over there and
   * adds nothing to the output.
   */
  lemma {:induction false} UnescapeTrailingBackslash(t: string)
    ensures Closed(t) <==> Unescape(t + ['\\']) == Unescape(t) + ['\\']
    ensures !Closed(t) ==> Unescape(t + ['\\']) == Unescape(t)
  {
    if t == [] {
      assert t + ['\\'] == ['\\'];
    } else if t[0] == '\\' && |t| == 1 {
      assert t + ['\\'] == ['\\', '\\'];
      assert Unescape(t) == ['\\'];
    } else if t[0] == '\\' {
      var u, rest := UnescapePair(t[1]), t[2..];
      UnescapeTrailingBackslash(rest);
      UnescapeAppendedPair(t);
      FrontCancels(u, Unescape(rest + ['\\']), Unescape(rest), '\\');
    } else {
      var u, rest := [t[0]], t[1..];
      UnescapeTrailingBackslash(rest);
      UnescapeAppendedPlain(t);
      FrontCancels(u, Unescape(rest + ['\\']), Unescape(rest), '\\');
    }
  }

  /** An escape pair at the front is read the same way with a backslash appended. */
  lemma UnescapeAppendedPair(t: string)
    requires |t| >= 2 && t[0] == '\\'
    ensures Unescape(t + ['\\']) == UnescapePair(t[1]) + Unescape(t[2..] + ['\\'])
  {
    assert (t + ['\\'])[2..] == t[2..] + ['\\'];
  }

  /** A plain character at the front is read the same way with a backslash appended. */
  lemma UnescapeAppendedPlain(t: string)
    requires t != [] && t[0] != '\\'
    ensures Unescape(t + ['\\']) == [t[0]] + Unescape(t[1..] + ['\\'])
  {
    assert (t + ['\\'])[1..] == t[1..] + ['\\'];
  }

  /** Two strings with the same front are equal exactly when what follows it is. */
  lemma FrontCancels(u: string, x: string, y: string, c: char)
    ensures u + x == (u + y) + [c] <==> x == y + [c]
  {
    assert (u + y) + [c] == u + (y + [c]);
    if u + x == u + (y + [c]) {
      assert x == (u + x)[|u|..];
      assert y + [c] == (u + (y + [c]))[|u|..];
    }
  }
}
