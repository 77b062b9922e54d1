/** CSV ingestion: the simplified line splitter (quote-toggle flag, no
    escaped quotes, no quoted newlines) and the reader that keeps the rows
    whose field count matches the header. The JavaScript built-ins it relies
    on (`String.prototype.trim`, `String.prototype.split`) are modelled here
    as functions with their own contracts. */
module Csv {
  import opened Wrappers
  import opened Questions

  // ---------------------------------------------------------------------
  // String built-ins

  /** The characters `String.prototype.trim` removes: ECMAScript WhiteSpace
      (tab, vertical tab, form feed, the byte-order mark and the Unicode
      space separators) and LineTerminator (LF, CR, LS, PS). */
  predicate IsSpace(c: char)
  {
    c == '\t' || c == '\n' || c == '\U{B}' || c == '\U{C}' || c == '\r' ||
    c == ' ' || c == '\U{A0}' || c == '\U{1680}' || ('\U{2000}' <= c <= '\U{200A}') ||
    c == '\U{2028}' || c == '\U{2029}' || c == '\U{202F}' || c == '\U{205F}' ||
    c == '\U{3000}' || c == '\U{FEFF}'
  }

  /** Neither end of `s` is a space character. */
  predicate IsTrimmed(s: string)
  {
    s == [] || (!IsSpace(s[0]) && !IsSpace(s[|s| - 1]))
  }

  function TrimStart(s: string): (r: string)
    ensures |r| <= |s|
    ensures r != [] ==> !IsSpace(r[0])
    decreases |s|
  {
    if s != [] && IsSpace(s[0]) then TrimStart(s[1..]) else s
  }

  function TrimEnd(s: string): (r: string)
    ensures |r| <= |s|
    ensures r != [] ==> !IsSpace(r[|r| - 1])
    decreases |s|
  {
    if s != [] && IsSpace(s[|s| - 1]) then TrimEnd(s[..|s| - 1]) else s
  }

  /** `TrimStart` keeps a suffix of its input. */
  lemma {:induction false} TrimStartSuffix(s: string)
    ensures TrimStart(s) == s[|s| - |TrimStart(s)|..]
    decreases |s|
  {
    if s != [] && IsSpace(s[0]) {
      TrimStartSuffix(s[1..]);
    }
  }

  /** `TrimEnd` keeps a prefix of its input. */
  lemma {:induction false} TrimEndPrefix(s: string)
    ensures TrimEnd(s) == s[..|TrimEnd(s)|]
    decreases |s|
  {
    if s != [] && IsSpace(s[|s| - 1]) {
      TrimEndPrefix(s[..|s| - 1]);
    }
  }

  /** Every character of `s` is a space character. */
  predicate AllSpace(s: string)
  {
    forall k :: 0 <= k < |s| ==> IsSpace(s[k])
  }

  /** `String.prototype.trim`: cuts the space characters off both ends. */
  function Trim(s: string): (r: string)
    ensures IsTrimmed(r)
  {
    var t := TrimStart(s);
    var r := TrimEnd(t);
    assert r == t[..|r|] by { TrimEndPrefix(t); }
    r
  }

  lemma {:induction false} TrimStartCuts(s: string)
    ensures AllSpace(s[..|s| - |TrimStart(s)|])
    decreases |s|
  {
    if s != [] && IsSpace(s[0]) {
      TrimStartCuts(s[1..]);
    }
  }

  lemma {:induction false} TrimEndCuts(s: string)
    ensures AllSpace(s[|TrimEnd(s)|..])
    decreases |s|
  {
    if s != [] && IsSpace(s[|s| - 1]) {
      TrimEndCuts(s[..|s| - 1]);
      assert s[|TrimEnd(s)|..] == s[..|s| - 1][|TrimEnd(s)|..] + [s[|s| - 1]];
    }
  }

  /** What `Trim` keeps is an infix of its input, and what it cuts off on
      either side is all spaces; so it keeps the longest trimmed infix. */
  lemma TrimIsInfix(s: string)
    ensures var r := Trim(s);
      exists i :: (0 <= i <= |s| - |r| && AllSpace(s[..i]) &&
        s[i..i + |r|] == r && AllSpace(s[i + |r|..]))
  {
    var t := TrimStart(s);
    var r := TrimEnd(t);
    var i := |s| - |t|;
    TrimStartSuffix(s);
    TrimEndPrefix(t);
    TrimStartCuts(s);
    TrimEndCuts(t);
    SliceOfSuffix(s, i, |r|);
  }

  /** Slicing a suffix is slicing the whole. */
  lemma SliceOfSuffix<T>(s: seq<T>, i: nat, n: nat)
    requires i + n <= |s|
    ensures s[i..][..n] == s[i..i + n] && s[i..][n..] == s[i + n..]
  {
  }

  /** Trimming keeps only characters of its input. */
  lemma TrimKeeps(s: string, c: char)
    requires c in Trim(s)
    ensures c in s
  {
    var t := TrimStart(s);
    TrimStartSuffix(s);
    TrimEndPrefix(t);
    assert c in t;
  }

  /** Occurrences of `c` in `s`. */
  function Count(s: string, c: char): nat
    decreases |s|
  {
    if s == [] then 0 else Count(s[..|s| - 1], c) + (if s[|s| - 1] == c then 1 else 0)
  }

  /** `s.split(sep)` for a one-character separator: the maximal pieces
      between separators, one more than there are separators (so the
      empty string gives one empty piece). */
  function SplitOn(s: string, sep: char): (r: seq<string>)
    ensures |r| == Count(s, sep) + 1
    decreases |s|
  {
    if s == [] then [""]
    else
      var r := SplitOn(s[..|s| - 1], sep);
      var c := s[|s| - 1];
      if c == sep then r + [""] else r[..|r| - 1] + [r[|r| - 1] + [c]]
  }

  /** No piece of a split contains the separator. */
  lemma {:induction false} SplitOnPieces(s: string, sep: char)
    ensures forall i :: 0 <= i < |SplitOn(s, sep)| ==> sep !in SplitOn(s, sep)[i]
    decreases |s|
  {
    if s != [] {
      SplitOnPieces(s[..|s| - 1], sep);
    }
  }

  /** `parts.join(sep)`: the inverse of `SplitOn`. */
  function Join(parts: seq<string>, sep: char): string
    requires |parts| >= 1
    decreases |parts|
  {
    if |parts| == 1 then parts[0]
    else Join(parts[..|parts| - 1], sep) + [sep] + parts[|parts| - 1]
  }

  /** Splitting and joining again gives back the original text. */
  lemma {:induction false} JoinSplitOn(s: string, sep: char)
    ensures Join(SplitOn(s, sep), sep) == s
    decreases |s|
  {
    if s != [] {
      var p, c := s[..|s| - 1], s[|s| - 1];
      JoinSplitOn(p, sep);
      if c == sep {
        JoinAppendEmpty(SplitOn(p, sep), sep);
      } else {
        JoinExtendLast(SplitOn(p, sep), c, sep);
      }
      assert p + [c] == s;
    }
  }

  /** A new empty last piece adds one separator. */
  lemma JoinAppendEmpty(r: seq<string>, sep: char)
    requires |r| >= 1
    ensures Join(r + [""], sep) == Join(r, sep) + [sep]
  {
    assert (r + [""])[..|r|] == r;
  }

  /** Extending the last piece extends the joined text. */
  lemma JoinExtendLast(r: seq<string>, c: char, sep: char)
    requires |r| >= 1
    ensures Join(r[..|r| - 1] + [r[|r| - 1] + [c]], sep) == Join(r, sep) + [c]
  {
    var k := |r| - 1;
    var r' := r[..k] + [r[k] + [c]];
    if k == 0 {
      assert r' == [r[0] + [c]];
    } else {
      assert r'[..k] == r[..k];
      var j := Join(r[..k], sep);
      assert j + [sep] + (r[k] + [c]) == j + [sep] + r[k] + [c];
    }
  }

  /** Joining pieces that do not contain the separator and splitting again
      gives back the pieces. */
  lemma {:induction false} SplitOnJoin(parts: seq<string>, sep: char)
    requires |parts| >= 1
    requires forall i :: 0 <= i < |parts| ==> sep !in parts[i]
    ensures SplitOn(Join(parts, sep), sep) == parts
    decreases |parts|
  {
    if |parts| == 1 {
      SplitOnPlain(parts[0], sep);
    } else {
      var init := parts[..|parts| - 1];
      var last := parts[|parts| - 1];
      SplitOnJoin(init, sep);
      SplitOnJoinStep(init, last, sep);
      Snoc(parts);
    }
  }

  lemma SplitOnJoinStep(init: seq<string>, last: string, sep: char)
    requires |init| >= 1 && sep !in last
    requires SplitOn(Join(init, sep), sep) == init
    ensures SplitOn(Join(init + [last], sep), sep) == init + [last]
  {
    var prefix := Join(init, sep) + [sep];
    assert (init + [last])[..|init|] == init;
    SplitOnSep(Join(init, sep), sep);
    SplitOnAppend(prefix, last, sep);
    NewLastPiece(init, last);
  }

  /** A trailing separator starts a new, empty piece. */
  lemma SplitOnSep(s: string, sep: char)
    ensures SplitOn(s + [sep], sep) == SplitOn(s, sep) + [""]
  {
    assert (s + [sep])[..|s|] == s;
  }

  lemma NewLastPiece(init: seq<string>, last: string)
    ensures var r := init + [""];
      r[..|r| - 1] + [r[|r| - 1] + last] == init + [last]
  {
    assert (init + [""])[..|init|] == init;
    assert "" + last == last;
  }

  /** A text without the separator is a single piece. */
  lemma {:induction false} SplitOnPlain(s: string, sep: char)
    requires sep !in s
    ensures SplitOn(s, sep) == [s]
    decreases |s|
  {
    if s != [] {
      assert sep !in s[..|s| - 1];
      SplitOnPlain(s[..|s| - 1], sep);
      assert s[..|s| - 1] + [s[|s| - 1]] == s;
    }
  }

  /** Appending a separator-free text `t` extends the last piece. */
  lemma {:induction false} SplitOnAppend(s: string, t: string, sep: char)
    requires sep !in t
    ensures var r := SplitOn(s, sep);
      SplitOn(s + t, sep) == r[..|r| - 1] + [r[|r| - 1] + t]
    decreases |t|
  {
    if t == [] {
      var r := SplitOn(s, sep);
      assert s + t == s;
      assert r[|r| - 1] + t == r[|r| - 1];
      assert r[..|r| - 1] + [r[|r| - 1]] == r;
    } else {
      assert sep !in t[..|t| - 1];
      SplitOnAppend(s, t[..|t| - 1], sep);
      SplitOnAppendStep(s, t, sep);
    }
  }

  /** One more character of `t` extends the last piece by that character. */
  lemma SplitOnAppendStep(s: string, t: string, sep: char)
    requires t != [] && t[|t| - 1] != sep
    requires var r := SplitOn(s, sep);
      SplitOn(s + t[..|t| - 1], sep) == r[..|r| - 1] + [r[|r| - 1] + t[..|t| - 1]]
    ensures var r := SplitOn(s, sep);
      SplitOn(s + t, sep) == r[..|r| - 1] + [r[|r| - 1] + t]
  {
    var r := SplitOn(s, sep);
    SnocSplit(s, t);
    SnocSplit(r[|r| - 1], t);
  }

  /** A non-empty sequence is its front followed by its last element. */
  lemma Snoc<T>(s: seq<T>)
    requires s != []
    ensures s[..|s| - 1] + [s[|s| - 1]] == s
  {
  }

  /** `x + t` is `x + t'` followed by the last character of `t`. */
  lemma SnocSplit(x: string, t: string)
    requires t != []
    ensures (x + t)[..|x + t| - 1] == x + t[..|t| - 1]
    ensures (x + t)[|x + t| - 1] == t[|t| - 1]
    ensures x + t[..|t| - 1] + [t[|t| - 1]] == x + t
  {
    assert t == t[..|t| - 1] + [t[|t| - 1]];
  }

  // ---------------------------------------------------------------------
  // One CSV line

  /** The splitter's loop state: fields finished so far, the field being
      built and the quote flag. */
  datatype ScanState = ScanState(values: seq<string>, current: string, inQuotes: bool)

  /** One character of the splitter: a quote toggles the flag and is
      dropped, a comma outside quotes closes the current field (trimmed),
      every other character is kept. */
  function Step(st: ScanState, c: char): ScanState
  {
    if c == '"' then st.(inQuotes := !st.inQuotes)
    else if c == ',' && !st.inQuotes then ScanState(st.values + [Trim(st.current)], "", st.inQuotes)
    else st.(current := st.current + [c])
  }

  /** The splitter's state after reading all of `line`. */
  function Scan(line: string): ScanState
    decreases |line|
  {
    if line == [] then ScanState([], "", false)
    else Step(Scan(line[..|line| - 1]), line[|line| - 1])
  }

  /** The fields `parseCSVLine` returns for `line`. */
  function Fields(line: string): seq<string>
  {
    Scan(line).values + [Trim(Scan(line).current)]
  }

  /** Commas of `line` preceded by an even number of quote characters, that
      is, commas read while the quote flag is off. */
  function UnquotedCommas(line: string): nat
    decreases |line|
  {
    if line == [] then 0
    else
      var p := line[..|line| - 1];
      UnquotedCommas(p) + (if line[|line| - 1] == ',' && Count(p, '"') % 2 == 0 then 1 else 0)
  }

  /** No quote kept and every finished field trimmed. */
  predicate QuoteFreeTrimmed(st: ScanState)
  {
    '"' !in st.current &&
    forall i :: 0 <= i < |st.values| ==> '"' !in st.values[i] && IsTrimmed(st.values[i])
  }

  lemma StepShape(st: ScanState, c: char)
    requires QuoteFreeTrimmed(st)
    ensures QuoteFreeTrimmed(Step(st, c))
    ensures Step(st, c).inQuotes <==> (st.inQuotes != (c == '"'))
    ensures |Step(st, c).values| == |st.values| + (if c == ',' && !st.inQuotes then 1 else 0)
  {
    if '"' in Trim(st.current) {
      TrimKeeps(st.current, '"');
    }
  }

  /** The quote flag is the parity of the quotes read; the finished fields
      are one per unquoted comma; no field keeps a quote character. */
  lemma {:induction false} ScanShape(line: string)
    ensures Scan(line).inQuotes <==> Count(line, '"') % 2 == 1
    ensures |Scan(line).values| == UnquotedCommas(line)
    ensures QuoteFreeTrimmed(Scan(line))
    decreases |line|
  {
    if line != [] {
      var p := line[..|line| - 1];
      ScanShape(p);
      StepShape(Scan(p), line[|line| - 1]);
    }
  }

  /** `parseCSVLine` returns one more field than there are commas read
      outside quotes; no field contains a quote and every field is trimmed. */
  lemma FieldsShape(line: string)
    ensures |Fields(line)| == UnquotedCommas(line) + 1
    ensures forall i :: 0 <= i < |Fields(line)| ==> '"' !in Fields(line)[i] && IsTrimmed(Fields(line)[i])
  {
    ScanShape(line);
    if '"' in Trim(Scan(line).current) {
      TrimKeeps(Scan(line).current, '"');
    }
  }

  /** Every piece trimmed. */
  function MapTrim(parts: seq<string>): (r: seq<string>)
    ensures |r| == |parts|
    ensures forall i :: 0 <= i < |r| ==> r[i] == Trim(parts[i])
    decreases |parts|
  {
    if parts == [] then [] else MapTrim(parts[..|parts| - 1]) + [Trim(parts[|parts| - 1])]
  }

  /** Without quote characters the splitter is a plain `split(',')` with
      every piece trimmed. */
  lemma {:induction false} ScanPlain(line: string)
    requires '"' !in line
    ensures var r := SplitOn(line, ',');
      !Scan(line).inQuotes &&
      Scan(line).values == MapTrim(r[..|r| - 1]) &&
      Scan(line).current == r[|r| - 1]
    decreases |line|
  {
    if line != [] {
      var p := line[..|line| - 1];
      assert '"' !in p;
      ScanPlain(p);
      var r := SplitOn(p, ',');
      if line[|line| - 1] == ',' {
        assert MapTrim(r) == MapTrim(r[..|r| - 1]) + [Trim(r[|r| - 1])];
        assert (r + [""])[..|r|] == r;
      } else {
        assert (r[..|r| - 1] + [r[|r| - 1] + [line[|line| - 1]]])[..|r| - 1] == r[..|r| - 1];
      }
    }
  }

  lemma FieldsOfPlainLine(line: string)
    requires '"' !in line
    ensures Fields(line) == MapTrim(SplitOn(line, ','))
  {
    ScanPlain(line);
    var r := SplitOn(line, ',');
    assert MapTrim(r) == MapTrim(r[..|r| - 1]) + [Trim(r[|r| - 1])];
  }

  /** A doubled quote toggles the flag twice and vanishes, where section 2
      of RFC 4180 (rule 7) would keep one literal quote. */
  lemma DoubledQuoteVanishes()
    ensures Fields("a\"\"b") == ["ab"]
  {
    assert "a\"\"b"[..3] == "a\"\"";
    assert "a\"\""[..2] == "a\"";
    assert "a\""[..1] == "a";
    assert "a"[..0] == "";
    assert Scan("a\"\"b") == ScanState([], "ab", false);
  }

  /** `parseCSVLine`. */
  method ParseLine(line: string) returns (values: seq<string>)
    ensures values == Fields(line)
    ensures |values| == UnquotedCommas(line) + 1
    ensures forall i :: 0 <= i < |values| ==> '"' !in values[i] && IsTrimmed(values[i])
  {
    values := [];
    var current := "";
    var inQuotes := false;
    for i := 0 to |line|
      invariant Scan(line[..i]) == ScanState(values, current, inQuotes)
    {
      assert line[..i + 1][..i] == line[..i];
      var c := line[i];
      if c == '"' {
        inQuotes := !inQuotes;
      } else if c == ',' && !inQuotes {
        values := values + [Trim(current)];
        current := "";
      } else {
        current := current + [c];
      }
    }
    assert line[..|line|] == line;
    values := values + [Trim(current)];
    FieldsShape(line);
  }

  // ---------------------------------------------------------------------
  // The whole file

  /** The lines of the trimmed text. */
  function Lines(text: string): (r: seq<string>)
    ensures |r| >= 1
  {
    SplitOn(Trim(text), '\n')
  }

  /** The header, split on plain commas (quotes are not interpreted). */
  function Header(text: string): seq<string>
  {
    SplitOn(Lines(text)[0], ',')
  }

  /** `values[k]`, or `undefined` past the end. */
  function At(values: seq<string>, k: nat): Field
  {
    if k < |values| then Some(values[k]) else None
  }

  /** The record built from the fields of one kept line. */
  function ToQuestion(values: seq<string>): Question
  {
    Question(At(values, 0), At(values, 1), At(values, 2), At(values, 3),
             At(values, 4), At(values, 5), At(values, 6))
  }

  /** The fields of every line, in order. */
  function MapFields(lines: seq<string>): (r: seq<seq<string>>)
    ensures |r| == |lines|
    ensures forall i :: 0 <= i < |r| ==> r[i] == Fields(lines[i])
    decreases |lines|
  {
    if lines == [] then [] else MapFields(lines[..|lines| - 1]) + [Fields(lines[|lines| - 1])]
  }

  /** The records built from the rows whose field count is `arity`, in
      order. */
  function KeptRows(rows: seq<seq<string>>, arity: nat): (r: seq<Question>)
    ensures |r| <= |rows|
    decreases |rows|
  {
    if rows == [] then []
    else
      var last := rows[|rows| - 1];
      KeptRows(rows[..|rows| - 1], arity) + (if |last| == arity then [ToQuestion(last)] else [])
  }

  /** What `parseCSV` returns for `text`: the header line is skipped. */
  function CsvRecords(text: string): seq<Question>
  {
    KeptRows(MapFields(Lines(text)[1..]), |Header(text)|)
  }

  /** The positions of the rows whose field count is `arity`, in order. */
  function KeptIndices(rows: seq<seq<string>>, arity: nat): (r: seq<nat>)
    ensures forall k :: 0 <= k < |r| ==> r[k] < |rows|
    decreases |rows|
  {
    if rows == [] then []
    else
      KeptIndices(rows[..|rows| - 1], arity) + (if |rows[|rows| - 1]| == arity then [|rows| - 1] else [])
  }

  /** One record per matching row. */
  lemma {:induction false} KeptIndicesCount(rows: seq<seq<string>>, arity: nat)
    ensures |KeptIndices(rows, arity)| == |KeptRows(rows, arity)|
    decreases |rows|
  {
    if rows != [] {
      KeptIndicesCount(rows[..|rows| - 1], arity);
    }
  }

  /** The k-th record is built from the k-th matching row. */
  lemma {:induction false} KeptIndicesSound(rows: seq<seq<string>>, arity: nat)
    ensures var idx := KeptIndices(rows, arity);
      |idx| == |KeptRows(rows, arity)| &&
      forall k :: 0 <= k < |idx| ==>
        |rows[idx[k]]| == arity && KeptRows(rows, arity)[k] == ToQuestion(rows[idx[k]])
    decreases |rows|
  {
    KeptIndicesCount(rows, arity);
    if rows != [] {
      var init := rows[..|rows| - 1];
      KeptIndicesSound(init, arity);
      var idx, prev := KeptIndices(rows, arity), KeptIndices(init, arity);
      forall k | 0 <= k < |prev|
        ensures |rows[idx[k]]| == arity && KeptRows(rows, arity)[k] == ToQuestion(rows[idx[k]])
      {
        assert idx[k] == prev[k] && rows[prev[k]] == init[prev[k]];
        assert KeptRows(rows, arity)[k] == KeptRows(init, arity)[k];
      }
    }
  }

  /** The matching rows are taken in input order, each once. */
  lemma {:induction false} KeptIndicesIncreasing(rows: seq<seq<string>>, arity: nat)
    ensures forall k, m :: 0 <= k < m < |KeptIndices(rows, arity)| ==>
                          KeptIndices(rows, arity)[k] < KeptIndices(rows, arity)[m]
    decreases |rows|
  {
    if rows != [] {
      var init := rows[..|rows| - 1];
      KeptIndicesIncreasing(init, arity);
      var idx, prev := KeptIndices(rows, arity), KeptIndices(init, arity);
      forall k, m | 0 <= k < m < |idx|
        ensures idx[k] < idx[m]
      {
        assert idx[..|prev|] == prev;
        if m >= |prev| {
          assert idx[k] == prev[k] < |init|;
          assert idx[m] == |init|;
        } else {
          assert idx[k] == prev[k] && idx[m] == prev[m];
          assert prev[k] < prev[m];
        }
      }
    }
  }

  /** No matching row is skipped. */
  lemma {:induction false} KeptIndicesComplete(rows: seq<seq<string>>, arity: nat)
    ensures forall i :: 0 <= i < |rows| && |rows[i]| == arity ==> i in KeptIndices(rows, arity)
    decreases |rows|
  {
    if rows != [] {
      var init := rows[..|rows| - 1];
      KeptIndicesComplete(init, arity);
      forall i | 0 <= i < |init| && |rows[i]| == arity
        ensures i in KeptIndices(rows, arity)
      {
        assert init[i] == rows[i];
      }
    }
  }

  /** `parseCSV` reads the lines after the header only: the k-th record is
      built from data line `idx[k] + 1`, whose field count is the header's;
      the lines are taken in order; and every such line is taken. */
  lemma CsvRecordsOrigin(text: string)
    ensures var lines := Lines(text);
      var arity := |Header(text)|;
      var idx := KeptIndices(MapFields(lines[1..]), arity);
      |idx| == |CsvRecords(text)| &&
      (forall k :: 0 <= k < |idx| ==>
        idx[k] + 1 < |lines| && |Fields(lines[idx[k] + 1])| == arity &&
        CsvRecords(text)[k] == ToQuestion(Fields(lines[idx[k] + 1]))) &&
      (forall k, m :: 0 <= k < m < |idx| ==> idx[k] < idx[m]) &&
      (forall i :: 1 <= i < |lines| && |Fields(lines[i])| == arity ==> i - 1 in idx)
  {
    var lines := Lines(text);
    var arity := |Header(text)|;
    var rows := MapFields(lines[1..]);
    KeptIndicesSound(rows, arity);
    KeptIndicesIncreasing(rows, arity);
    KeptIndicesComplete(rows, arity);
    forall i | 1 <= i < |lines| && |Fields(lines[i])| == arity
      ensures i - 1 in KeptIndices(rows, arity)
    {
      assert rows[i - 1] == Fields(lines[i]);
    }
  }

  lemma MapFieldsAppend(lines: seq<string>, line: string)
    ensures MapFields(lines + [line]) == MapFields(lines) + [Fields(line)]
  {
    assert (lines + [line])[..|lines|] == lines;
  }

  lemma KeptRowsAppend(rows: seq<seq<string>>, row: seq<string>, arity: nat)
    ensures KeptRows(rows + [row], arity) ==
      KeptRows(rows, arity) + (if |row| == arity then [ToQuestion(row)] else [])
  {
    assert (rows + [row])[..|rows|] == rows;
  }

  /** Reading one more line adds its record when its field count matches. */
  lemma KeptRowsStep(lines: seq<string>, i: nat, arity: nat)
    requires 1 <= i < |lines|
    ensures var values := Fields(lines[i]);
      KeptRows(MapFields(lines[1..i + 1]), arity) ==
      KeptRows(MapFields(lines[1..i]), arity) + (if |values| == arity then [ToQuestion(values)] else [])
  {
    assert lines[1..i + 1] == lines[1..i] + [lines[i]];
    MapFieldsAppend(lines[1..i], lines[i]);
    KeptRowsAppend(MapFields(lines[1..i]), Fields(lines[i]), arity);
  }

  /** `parseCSV`: the first line is the header; every later line whose
      field count equals the header's becomes a record. */
  method ParseCsv(text: string) returns (data: seq<Question>)
    ensures data == CsvRecords(text)
    ensures |data| <= |Lines(text)| - 1
  {
    var lines := SplitOn(Trim(text), '\n');
    var headers := SplitOn(lines[0], ',');
    data := [];
    for i := 1 to |lines|
      invariant data == KeptRows(MapFields(lines[1..i]), |headers|)
    {
      var values := ParseLine(lines[i]);
      KeptRowsStep(lines, i, |headers|);
      if |values| == |headers| {
        data := data + [ToQuestion(values)];
      }
    }
    assert lines[1..|lines|] == lines[1..];
  }
}
