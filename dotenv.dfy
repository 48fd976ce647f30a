/**
 * The dotenv side of internal/convert/convert.go: `DotenvToJSON` parses
 * `KEY=VALUE` lines into a flat string map, and `JSONToEnv` prints a decoded
 * JSON object as one `key="escaped value"` line per key.
 */
module Dotenv {
  import opened Wrappers
  import opened Text
  import opened Json
  import opened EnvEscape

  /** The errors `DotenvToJSON` can return for a line. */
  datatype ParseError = InvalidLine(line: string) | EmptyKey

  /** Stands for the error Go's JSON decoder reports on malformed input. */
  datatype DecodeError = DecodeError(message: string)

  /** What one input line contributes to the result. */
  datatype LineResult = Blank | Pair(key: string, value: string) | Bad(err: ParseError)

  /**
   * The value rule: a trimmed value of two or more characters wrapped in
   * double quotes is unescaped, one wrapped in single quotes is taken
   * literally, anything else stays as it is.
   */
  function ValueOf(val: string): (r: string)
    ensures |r| <= |val|
    ensures r != val ==> |val| >= 2 && (val[0] == '"' || val[0] == '\'') && val[|val| - 1] == val[0]
  {
    if |val| >= 2 && val[0] == '"' && val[|val| - 1] == '"' then Unescape(val[1..|val| - 1])
    else if |val| >= 2 && val[0] == '\'' && val[|val| - 1] == '\'' then val[1..|val| - 1]
    else val
  }

  /** Single quotes keep their content literally, double quotes unescape it. */
  lemma ValueOfQuotes(s: string)
    ensures ValueOf("'" + s + "'") == s
    ensures ValueOf("\"" + s + "\"") == Unescape(s)
  {
  }

  /**
   * The body of `DotenvToJSON`'s loop for one line. A line is skipped exactly
   * when it trims to nothing or to a comment; it fails exactly when it has no
   * `=` or starts with one, and then always with `InvalidLine` of the trimmed
   * text (the `EmptyKey` branch cannot be reached); otherwise it yields a
   * non-empty, trimmed key without `=`.
   */
  function ParseLine(raw: string): (r: LineResult)
    ensures var t := TrimSpace(raw);
      && (r.Blank? <==> t == [] || t[0] == '#')
      && (r.Bad? <==> t != [] && t[0] != '#' && ('=' !in t || t[0] == '='))
      && (r.Bad? ==> r.err == InvalidLine(t))
      && (r.Pair? ==> r.key != [] && '=' !in r.key && TrimSpace(r.key) == r.key)
  {
    var line := TrimSpace(raw);
    if line == [] || line[0] == '#' then Blank
    else
      var idx := IndexOf(line, '=');
      if idx <= 0 then Bad(InvalidLine(line))
      else
        assert line[..idx][0] == line[0];
        TrimSpaceKeepsOut(line[..idx], '=');
        var key := TrimSpace(line[..idx]);
        var val := TrimSpace(line[idx + 1..]);
        if key == [] then assert false; Bad(EmptyKey)
        else Pair(key, ValueOf(val))
  }

  /** Each line's contribution, in input order. */
  function Classify(lines: seq<string>): seq<LineResult> {
    seq(|lines|, i requires 0 <= i < |lines| => ParseLine(lines[i]))
  }

  /**
   * One line's contribution folded into the result so far: a failure stays,
   * a blank line keeps the map, a pair overwrites its key and a bad line
   * fails with its error.
   */
  function Step(acc: Result<map<string, string>, ParseError>, lr: LineResult): Result<map<string, string>, ParseError> {
    match acc
    case Err(e) => Err(e)
    case Ok(m) =>
      match lr
      case Blank => Ok(m)
      case Pair(k, v) => Ok(m[k := v])
      case Bad(e) => Err(e)
  }

  /**
   * Folds the lines' contributions into one map: a later pair overwrites an
   * earlier one with the same key, and the first bad line ends the fold with
   * its error.
   */
  function Collect(rs: seq<LineResult>): Result<map<string, string>, ParseError> {
    if rs == [] then Ok(map[]) else Step(Collect(rs[..|rs| - 1]), rs[|rs| - 1])
  }

  /** What `DotenvToJSON` computes from a sequence of lines. */
  function Parse(lines: seq<string>): Result<map<string, string>, ParseError> {
    Collect(Classify(lines))
  }

  /**
   * `DotenvToJSON`: updates one result map line by line and returns it whole,
   * or stops at the first bad line, so that nothing is encoded on failure.
   */
  method DotenvToJSON(lines: seq<string>) returns (res: Result<map<string, string>, ParseError>)
    ensures res == Parse(lines)
  {
    ghost var rs := Classify(lines);
    var result: map<string, string> := map[];
    var i := 0;
    while i < |lines|
      invariant 0 <= i <= |lines|
      invariant Collect(rs[..i]) == Ok(result)
    {
      assert rs[i] == ParseLine(lines[i]);
      var next := AddLine(result, lines[i]);
      CollectPrefix(rs, i);
      if next.Err? {
        CollectErrPersists(rs, i + 1);
        return next;
      }
      result := next.value;
      i := i + 1;
    }
    assert rs[..i] == rs;
    return Ok(result);
  }

  /**
   * The body of `DotenvToJSON`'s loop: a blank or comment line is skipped, a
   * bad line gives its error, and a pair is stored under its key.
   */
  method AddLine(result: map<string, string>, line: string) returns (next: Result<map<string, string>, ParseError>)
    ensures next == Step(Ok(result), ParseLine(line))
  {
    var lr := ParseLine(line);
    match lr {
      case Blank =>
        next := Ok(result);
      case Pair(k, v) =>
        next := Ok(result[k := v]);
      case Bad(e) =>
        next := Err(e);
    }
  }

  /** Folding one line more of the same sequence. */
  lemma CollectPrefix(rs: seq<LineResult>, i: nat)
    requires i < |rs|
    ensures Collect(rs[..i + 1]) == Step(Collect(rs[..i]), rs[i])
  {
    assert rs[..i + 1][..i] == rs[..i];
  }

  /** Once a prefix has failed, nothing after it changes the outcome. */
  lemma {:induction false} CollectErrPersists(rs: seq<LineResult>, j: nat)
    requires j <= |rs| && Collect(rs[..j]).Err?
    ensures Collect(rs) == Collect(rs[..j])
    decreases |rs|
  {
    if j == |rs| {
      assert rs[..j] == rs;
    } else {
      var init := rs[..|rs| - 1];
      assert init[..j] == rs[..j];
      CollectErrPersists(init, j);
    }
  }

  /** Parsing succeeds exactly when no line is bad. */
  lemma {:induction false} CollectOkIffNoBad(rs: seq<LineResult>)
    ensures Collect(rs).Ok? <==> forall i :: 0 <= i < |rs| ==> !rs[i].Bad?
  {
    if rs != [] {
      var init := rs[..|rs| - 1];
      CollectOkIffNoBad(init);
      assert forall i :: 0 <= i < |init| ==> init[i] == rs[i];
    }
  }

  /** The error reported is that of the first bad line. */
  lemma CollectFailsAtFirstBad(rs: seq<LineResult>, j: nat)
    requires j < |rs| && rs[j].Bad?
    requires forall i :: 0 <= i < j ==> !rs[i].Bad?
    ensures Collect(rs) == Err(rs[j].err)
  {
    var pre := rs[..j];
    CollectOkIffNoBad(pre);
    assert rs[..j + 1][..j] == pre;
    CollectErrPersists(rs, j + 1);
  }

  /** A blank or comment line contributes nothing, wherever it stands. */
  lemma {:induction false} CollectIgnoresBlank(a: seq<LineResult>, b: seq<LineResult>)
    ensures Collect(a + [Blank] + b) == Collect(a + b)
    decreases |b|
  {
    if b == [] {
      assert (a + [Blank] + b)[..|a|] == a;
      assert a + b == a;
    } else {
      var init := b[..|b| - 1];
      CollectIgnoresBlank(a, init);
      assert (a + [Blank] + b)[..|a + [Blank] + b| - 1] == a + [Blank] + init;
      assert (a + b)[..|a + b| - 1] == a + init;
    }
  }

  /** When a key repeats, the value of its last occurrence is the one kept. */
  lemma {:induction false} CollectLastWins(rs: seq<LineResult>, j: nat, m: map<string, string>)
    requires Collect(rs) == Ok(m)
    requires j < |rs| && rs[j].Pair?
    requires forall i :: j < i < |rs| ==> !(rs[i].Pair? && rs[i].key == rs[j].key)
    ensures rs[j].key in m && m[rs[j].key] == rs[j].value
  {
    var init := rs[..|rs| - 1];
    if j < |rs| - 1 {
      match Collect(init)
      case Ok(m0) =>
        assert init[j] == rs[j];
        forall i | j < i < |init| ensures !(init[i].Pair? && init[i].key == init[j].key) {
          assert init[i] == rs[i];
        }
        CollectLastWins(init, j, m0);
    }
  }

  /** Every key of the result comes, with its value, from some line. */
  lemma {:induction false} CollectedKeysComeFromPairs(rs: seq<LineResult>, m: map<string, string>, k: string)
    requires Collect(rs) == Ok(m) && k in m
    ensures exists i :: 0 <= i < |rs| && rs[i] == Pair(k, m[k])
  {
    var init := rs[..|rs| - 1];
    var last := |rs| - 1;
    match Collect(init)
    case Ok(m0) =>
      if rs[last] != Pair(k, m[k]) {
        assert k in m0 && m0[k] == m[k];
        CollectedKeysComeFromPairs(init, m0, k);
        var i :| 0 <= i < |init| && init[i] == Pair(k, m0[k]);
        assert rs[i] == init[i];
      }
  }

  /** A value wrapped in double quotes. */
  function Quoted(e: string): string {
    "\"" + e + "\""
  }

  /**
   * One line of `JSONToEnv`'s output, without its terminating newline: the
   * key, `=`, and the escaped value between double quotes.
   */
  function EnvLine(key: string, value: string): (r: string)
    ensures |r| >= |key| + |value| + 3
    ensures r[..|key| + 1] == key + "=" && r[|key| + 1] == '"' && r[|r| - 1] == '"'
    ensures r[|key| + 2..|r| - 1] == Escape(value)
  {
    key + "=" + Quoted(Escape(value))
  }

  /** The lines `JSONToEnv` writes when it visits the keys in `order`. */
  function Listing(order: seq<string>, m: map<string, JVal>, f: Formats): seq<string>
    requires forall i :: 0 <= i < |order| ==> order[i] in m
  {
    if order == [] then []
    else
      var k := order[|order| - 1];
      Listing(order[..|order| - 1], m, f) + [EnvLine(k, Sprint(m[k], f))]
  }

  /** `order` visits every key of `keys` exactly once (Go's map iteration). */
  ghost predicate Enumerates(order: seq<string>, keys: set<string>) {
    && |order| == |keys|
    && (forall i, j :: 0 <= i < j < |order| ==> order[i] != order[j])
    && (forall k :: k in order <==> k in keys)
  }

  /**
   * `JSONToEnv`: a decode failure is returned before anything is written;
   * otherwise one line per key, in an order the map iteration chooses.
   */
  method JSONToEnv(doc: Result<map<string, JVal>, DecodeError>, f: Formats)
    returns (res: Result<seq<string>, DecodeError>, ghost order: seq<string>)
    ensures doc.Err? ==> res == Err(doc.error)
    ensures doc.Ok? ==> Enumerates(order, doc.value.Keys) && res == Ok(Listing(order, doc.value, f))
  {
    order := [];
    match doc
    case Err(e) =>
      res := Err(e);
    case Ok(m) =>
      var lines: seq<string> := [];
      var rest := m.Keys;
      while rest != {}
        invariant rest <= m.Keys
        invariant |order| + |rest| == |m.Keys|
        invariant forall i, j :: 0 <= i < j < |order| ==> order[i] != order[j]
        invariant forall k :: k in order <==> k in m.Keys - rest
        invariant forall i :: 0 <= i < |order| ==> order[i] in m
        invariant lines == Listing(order, m, f)
        decreases rest
      {
        var k :| k in rest;
        assert k !in order;
        ghost var old_order := order;
        var val := Sprint(m[k], f);
        var escaped := EscapeEnvValue(val);
        lines := lines + [k + "=" + Quoted(escaped)];
        order := order + [k];
        rest := rest - {k};
        assert order[..|order| - 1] == old_order;
      }
      res := Ok(lines);
  }

  /** Keys that `JSONToEnv` writes in a form the dotenv parser reads back unchanged. */
  predicate PortableKey(k: string) {
    && k != [] && !IsSpace(k[0]) && !IsSpace(k[|k| - 1])
    && k[0] != '#' && '=' !in k && '\n' !in k && '\r' !in k
  }

  /** A written line for a portable key holds no LF, so it is a whole line to a line scanner. */
  lemma EnvLineNoNewline(k: string, s: string)
    requires PortableKey(k)
    ensures '\n' !in EnvLine(k, s)
  {
    var r, e := EnvLine(k, s), Escape(s);
    forall i | 0 <= i < |r| ensures r[i] != '\n' {
      if i < |k| {
        assert r[i] == r[..|k| + 1][i] == k[i];
      } else if |k| + 1 < i < |r| - 1 {
        assert r[i] == r[|k| + 2..|r| - 1][i - |k| - 2] == e[i - |k| - 2];
      } else if i == |k| {
        assert r[i] == r[..|k| + 1][i] == '=';
      }
    }
  }

  /** No line of a listing over portable keys holds an LF. */
  lemma {:induction false} ListingNoNewline(order: seq<string>, m: map<string, JVal>, f: Formats)
    requires forall i :: 0 <= i < |order| ==> order[i] in m && PortableKey(order[i])
    ensures forall i :: 0 <= i < |Listing(order, m, f)| ==> '\n' !in Listing(order, m, f)[i]
  {
    if order != [] {
      var init := order[..|order| - 1];
      var k := order[|order| - 1];
      forall i | 0 <= i < |init| ensures init[i] in m && PortableKey(init[i]) {
        assert init[i] == order[i];
      }
      ListingNoNewline(init, m, f);
      EnvLineNoNewline(k, Sprint(m[k], f));
    }
  }

  /** A printed line parses back to its key and its unescaped value. */
  lemma EnvLineParses(k: string, s: string)
    requires PortableKey(k)
    ensures ParseLine(EnvLine(k, s)) == Pair(k, s)
  {
    var quoted := Quoted(Escape(s));
    QuotedValue(s);
    assert !IsSpace('"');
    PortableLineParses(k, quoted);
  }

  /** A line made of a portable key, `=` and a trimmed value parses into that key and the value's reading. */
  lemma PortableLineParses(k: string, v: string)
    requires PortableKey(k) && v != [] && !IsSpace(v[|v| - 1]) && TrimSpace(v) == v
    ensures ParseLine(k + "=" + v) == Pair(k, ValueOf(v))
  {
    var line := k + "=" + v;
    EnvLineTrimmed(k, v);
    EnvLineSplits(k, v);
    assert line[0] == k[0];
    ParseKeyValueLine(line, k, v);
  }

  /** A bare value (no surrounding quotes, no white space at its ends) is read as it is. */
  lemma BareValueParses(k: string, v: string)
    requires PortableKey(k) && v != [] && !IsSpace(v[0]) && !IsSpace(v[|v| - 1])
    requires v[0] != '"' && v[0] != '\''
    ensures ParseLine(k + "=" + v) == Pair(k, v)
  {
    PortableLineParses(k, v);
  }

  /** `ParseLine` on a trimmed line whose first `=` splits it into a trimmed key and value. */
  lemma ParseKeyValueLine(line: string, key: string, val: string)
    requires TrimSpace(line) == line && line != [] && line[0] != '#'
    requires 0 < IndexOf(line, '=') && line[..IndexOf(line, '=')] == key && line[IndexOf(line, '=') + 1..] == val
    requires key != [] && TrimSpace(key) == key && TrimSpace(val) == val
    ensures ParseLine(line) == Pair(key, ValueOf(val))
  {
  }

  /** A portable key, `=` and a value ending in a non-space have no white space to trim. */
  lemma EnvLineTrimmed(k: string, v: string)
    requires PortableKey(k) && v != [] && !IsSpace(v[|v| - 1])
    ensures TrimSpace(k + "=" + v) == k + "=" + v
    ensures TrimSpace(k) == k
  {
  }

  /** The first `=` after a key without `=` is the one that follows the key. */
  lemma EnvLineSplits(k: string, v: string)
    requires '=' !in k
    ensures var line := k + "=" + v;
      IndexOf(line, '=') == |k| && line[..|k|] == k && line[|k| + 1..] == v
  {
    var line := k + "=" + v;
    assert line[..|k|] == k;
    IndexOfAt(line, '=', |k|);
  }

  /** A double-quoted escaped value is trimmed as it is and unescaped back. */
  lemma QuotedValue(s: string)
    ensures var quoted := Quoted(Escape(s));
      TrimSpace(quoted) == quoted && ValueOf(quoted) == s
  {
    var e := Escape(s);
    var quoted := Quoted(e);
    assert !IsSpace('"');
    assert quoted[0] == '"' && quoted[|quoted| - 1] == '"';
    assert quoted[1..|quoted| - 1] == e;
    UnescapeEscape(s);
  }

  /** The classifications of a listing's lines, when each line parses back. */
  function Pairs(order: seq<string>, m: map<string, JVal>, f: Formats): seq<LineResult>
    requires forall i :: 0 <= i < |order| ==> order[i] in m
  {
    seq(|order|, i requires 0 <= i < |order| && order[i] in m => Pair(order[i], Sprint(m[order[i]], f)))
  }

  /** Collecting those pairs yields every listed key with its rendered value. */
  lemma {:induction false} CollectPairs(order: seq<string>, m: map<string, JVal>, f: Formats)
    requires forall i :: 0 <= i < |order| ==> order[i] in m
    ensures Collect(Pairs(order, m, f)) == Ok(map k | k in order && k in m :: Sprint(m[k], f))
  {
    if order != [] {
      var init := order[..|order| - 1];
      var k := order[|order| - 1];
      CollectPairs(init, m, f);
      var ps := Pairs(order, m, f);
      assert ps[..|ps| - 1] == Pairs(init, m, f);
      var before := map k' | k' in init && k' in m :: Sprint(m[k'], f);
      assert before[k := Sprint(m[k], f)] == map k' | k' in order && k' in m :: Sprint(m[k'], f) by {
        assert forall k' :: k' in order <==> k' in init || k' == k;
      }
    }
  }

  /** Parsing a listing yields every listed key with its rendered value. */
  lemma ListingParses(order: seq<string>, m: map<string, JVal>, f: Formats)
    requires forall i :: 0 <= i < |order| ==> order[i] in m && PortableKey(order[i])
    ensures Parse(Listing(order, m, f)) == Ok(map k | k in order && k in m :: Sprint(m[k], f))
  {
    ListingClassified(order, m, f);
    CollectPairs(order, m, f);
  }

  /** Each line of a listing parses back to its own key and rendered value. */
  lemma {:induction false} ListingClassified(order: seq<string>, m: map<string, JVal>, f: Formats)
    requires forall i :: 0 <= i < |order| ==> order[i] in m && PortableKey(order[i])
    ensures Classify(Listing(order, m, f)) == Pairs(order, m, f)
  {
    if order != [] {
      var init := order[..|order| - 1];
      var k := order[|order| - 1];
      var line := EnvLine(k, Sprint(m[k], f));
      ListingClassified(init, m, f);
      EnvLineParses(k, Sprint(m[k], f));
      ClassifyAppend(Listing(init, m, f), line);
      PairsAppend(order, m, f);
    }
  }

  /** Classifying one more line appends that line's classification. */
  lemma ClassifyAppend(lines: seq<string>, line: string)
    ensures Classify(lines + [line]) == Classify(lines) + [ParseLine(line)]
  {
    var ls := lines + [line];
    assert forall i :: 0 <= i < |lines| ==> ls[i] == lines[i];
  }

  /** The pairs of a key order are those of all but its last key, then the last one's. */
  lemma PairsAppend(order: seq<string>, m: map<string, JVal>, f: Formats)
    requires order != [] && forall i :: 0 <= i < |order| ==> order[i] in m
    ensures Pairs(order, m, f) == Pairs(order[..|order| - 1], m, f) + [Pair(order[|order| - 1], Sprint(m[order[|order| - 1]], f))]
  {
  }

  /**
   * Whatever order the keys are written in, reading `JSONToEnv`'s output back
   * with the dotenv parser gives every key with `fmt.Sprint` of its value.
   */
  lemma JSONToEnvParsesBack(m: map<string, JVal>, f: Formats, order: seq<string>)
    requires Enumerates(order, m.Keys)
    requires forall k :: k in m ==> PortableKey(k)
    ensures Parse(Listing(order, m, f)) == Ok(map k | k in m :: Sprint(m[k], f))
  {
    forall i | 0 <= i < |order| ensures order[i] in m && PortableKey(order[i]) {
      assert order[i] in order;
    }
    ListingParses(order, m, f);
    var parsed := map k | k in order && k in m :: Sprint(m[k], f);
    var expected := map k | k in m :: Sprint(m[k], f);
    assert parsed.Keys == expected.Keys;
    assert parsed == expected;
  }
}
