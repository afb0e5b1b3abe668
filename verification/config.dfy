/** The text handling of `Core::Impl` in src/core.cpp: `trim`, the
    `key = value` lines of clay.conf, the comma-separated `ignore_patterns`
    value and the `std::stoi` conversion of numeric values. */
module Config {
  import opened Wrappers
  import opened Text

  // ---------------------------------------------------------------- trim

  /** Index of the first non-whitespace character (`find_if_not` from the
      front), `|s|` when there is none. */
  function SkipSpaces(s: string): (i: nat)
    ensures i <= |s|
    decreases |s|
  {
    if s == [] || !IsSpace(s[0]) then 0 else 1 + SkipSpaces(s[1..])
  }

  /** `SkipSpaces` passes over whitespace only and stops at the first
      non-whitespace character. */
  lemma {:induction false} SkipSpacesSpec(s: string)
    ensures AllSpace(s[..SkipSpaces(s)])
    ensures SkipSpaces(s) < |s| ==> !IsSpace(s[SkipSpaces(s)])
    decreases |s|
  {
    if s != [] && IsSpace(s[0]) {
      SkipSpacesSpec(s[1..]);
      var i := SkipSpaces(s);
      assert s[..i] == [s[0]] + s[1..][..i - 1];
    }
  }

  /** One past the last non-whitespace character (`find_if_not` from the
      back), 0 when there is none. */
  function EndOfText(s: string): (j: nat)
    ensures j <= |s|
    decreases |s|
  {
    if s == [] || !IsSpace(s[|s| - 1]) then |s| else EndOfText(s[..|s| - 1])
  }

  /** `EndOfText` leaves whitespace only behind it and stops after a
      non-whitespace character. */
  lemma {:induction false} EndOfTextSpec(s: string)
    ensures AllSpace(s[EndOfText(s)..])
    ensures EndOfText(s) > 0 ==> !IsSpace(s[EndOfText(s) - 1])
    decreases |s|
  {
    if s != [] && IsSpace(s[|s| - 1]) {
      EndOfTextSpec(s[..|s| - 1]);
      var j := EndOfText(s);
      assert s[j..] == s[..|s| - 1][j..] + [s[|s| - 1]];
    }
  }

  /** `r` is `s` with a run of whitespace removed on each side, the removed
      runs starting at 0 and ending at `|s|`. */
  ghost predicate TrimmedAt(s: string, r: string, i: int) {
    0 <= i <= |s| - |r| && s[i..i + |r|] == r && AllSpace(s[..i]) && AllSpace(s[i + |r|..])
  }

  /** `trim`: the text between the leading and the trailing whitespace. */
  function Trim(s: string): string {
    var i := SkipSpaces(s);
    var j := EndOfText(s);
    if i < j then s[i..j] else []
  }

  /** `trim` removes exactly a run of whitespace from each end: what is left
      starts and ends with a non-whitespace character, and only an
      all-whitespace input leaves nothing. */
  lemma TrimSpec(s: string)
    ensures exists i :: TrimmedAt(s, Trim(s), i)
    ensures Trim(s) != [] ==> !IsSpace(Trim(s)[0]) && !IsSpace(Trim(s)[|Trim(s)| - 1])
    ensures AllSpace(s) <==> Trim(s) == []
  {
    if SkipSpaces(s) < EndOfText(s) {
      TrimText(s);
    } else {
      TrimNothing(s);
    }
  }

  /** When some character is not whitespace, `trim` keeps the text from the
      first to the last such character. */
  lemma TrimText(s: string)
    requires SkipSpaces(s) < EndOfText(s)
    ensures TrimmedAt(s, Trim(s), SkipSpaces(s))
    ensures Trim(s) != [] && !IsSpace(Trim(s)[0]) && !IsSpace(Trim(s)[|Trim(s)| - 1])
    ensures !AllSpace(s)
  {
    TrimTextAt(s);
    TrimTextEnds(s);
  }

  lemma TrimTextAt(s: string)
    requires SkipSpaces(s) < EndOfText(s)
    ensures TrimmedAt(s, Trim(s), SkipSpaces(s))
  {
    var i := SkipSpaces(s);
    var j := EndOfText(s);
    var t := s[i..j];
    assert Trim(s) == t;
    assert i + |t| == j && s[i..i + |t|] == t;
    assert AllSpace(s[..i]) by { SkipSpacesSpec(s); }
    assert AllSpace(s[i + |t|..]) by { EndOfTextSpec(s); }
  }

  lemma TrimTextEnds(s: string)
    requires SkipSpaces(s) < EndOfText(s)
    ensures Trim(s) != [] && !IsSpace(Trim(s)[0]) && !IsSpace(Trim(s)[|Trim(s)| - 1])
    ensures !AllSpace(s)
  {
    var i := SkipSpaces(s);
    var j := EndOfText(s);
    assert !IsSpace(s[i]) by { SkipSpacesSpec(s); }
    assert !IsSpace(s[j - 1]) by { EndOfTextSpec(s); }
    var t := s[i..j];
    assert Trim(s) == t;
    assert t[0] == s[i] && t[|t| - 1] == s[j - 1];
  }

  /** Otherwise the text is all whitespace and `trim` leaves nothing. */
  lemma TrimNothing(s: string)
    requires SkipSpaces(s) >= EndOfText(s)
    ensures Trim(s) == [] && TrimmedAt(s, [], |s|)
    ensures AllSpace(s)
  {
    var j := EndOfText(s);
    EndOfTextSpec(s);
    SkipBefore(s, j);
    assert j == 0;
    assert s[j..] == s;
    assert s[..|s|] == s && s[|s|..] == [];
  }

  /** No whitespace is skipped past the last non-whitespace character. */
  lemma {:induction false} SkipBefore(s: string, j: nat)
    requires 0 < j <= |s| ==> !IsSpace(s[j - 1])
    ensures 0 < j <= |s| ==> SkipSpaces(s) < j
    decreases |s|
  {
    if 0 < j <= |s| && IsSpace(s[0]) {
      SkipBefore(s[1..], j - 1);
    }
  }

  /** Trimming twice is trimming once. */
  lemma TrimIdempotent(s: string)
    ensures Trim(Trim(s)) == Trim(s)
  {
    var r := Trim(s);
    TrimSpec(s);
    if r != [] {
      SkipSpacesSpec(r);
      EndOfTextSpec(r);
      assert SkipSpaces(r) == 0;
      assert EndOfText(r) == |r|;
      assert r[0..|r|] == r;
    }
  }

  // ------------------------------------------------------ key = value lines

  /** `s.find(c)`: the first position of `c`, if any. */
  function FindChar(s: string, c: char): (r: Option<nat>)
    ensures r.Some? ==> r.value < |s|
    decreases |s|
  {
    if s == [] then None
    else if s[0] == c then Some(0)
    else match FindChar(s[1..], c)
      case None => None
      case Some(p) => Some(p + 1)
  }

  /** `FindChar` finds nothing exactly when `c` does not occur, and
      otherwise its first occurrence. */
  lemma {:induction false} FindCharSpec(s: string, c: char)
    ensures FindChar(s, c).None? <==> c !in s
    ensures FindChar(s, c).Some? ==> s[FindChar(s, c).value] == c && c !in s[..FindChar(s, c).value]
    decreases |s|
  {
    if s != [] && s[0] != c {
      FindCharSpec(s[1..], c);
      assert s == [s[0]] + s[1..];
      if FindChar(s[1..], c).Some? {
        var p := FindChar(s[1..], c).value;
        assert s[..p + 1] == [s[0]] + s[1..][..p];
      }
    }
  }

  /** One line of clay.conf: skipped (`None`) when empty, a comment (`#`), a
      section header (`[`) or without `=`; otherwise the trimmed text before
      and after the first `=`. */
  function ParseLine(line: string): (r: Option<(string, string)>)
    ensures r.None? <==> line == [] || line[0] == '#' || line[0] == '[' || '=' !in line
    ensures r.Some? ==> '=' !in r.value.0
    ensures r.Some? ==> exists pos :: (0 <= pos < |line| && line[pos] == '=' &&
              r.value == (Trim(line[..pos]), Trim(line[pos + 1..])))
  {
    if line == [] || line[0] == '#' || line[0] == '[' then None
    else
      FindCharSpec(line, '=');
      match FindChar(line, '=')
      case None => None
      case Some(pos) =>
        var key := Trim(line[..pos]);
        TrimKeepsOut(line[..pos], '=');
        Some((key, Trim(line[pos + 1..])))
  }

  /** `trim` only removes characters: one absent from `s` is absent from
      `Trim(s)`. */
  lemma TrimKeepsOut(s: string, c: char)
    requires c !in s
    ensures c !in Trim(s)
  {
    TrimSpec(s);
    var i :| TrimmedAt(s, Trim(s), i);
    var t := Trim(s);
    forall k | 0 <= k < |t| ensures t[k] != c {
      assert t[k] == s[i + k];
    }
  }

  /** The line `key = value` as the default configuration writes it. */
  function ConfigLine(key: string, value: string): string {
    key + " = " + value
  }

  /** A key/value pair written as `key = value` reads back as itself, when the
      key is non-empty, has no `=`, does not start a comment or section, and
      neither part has whitespace at its ends. */
  lemma ParseConfigLine(key: string, value: string)
    requires key != [] && key[0] != '#' && key[0] != '[' && '=' !in key
    requires Trim(key) == key && Trim(value) == value
    ensures ParseLine(ConfigLine(key, value)) == Some((key, value))
  {
    var line := ConfigLine(key, value);
    var pos := |key| + 1;
    assert FindChar(line, '=') == Some(pos) by {
      assert line == (key + " ") + ("= " + value);
      FindCharAfter(key + " ", "= " + value, '=');
    }
    assert line[..pos] == [] + key + " ";
    assert line[pos + 1..] == " " + value + [];
    TrimPadding(key, [], " ", line[..pos]);
    TrimPadding(value, " ", [], line[pos + 1..]);
    ParseLineAt(line, pos);
  }

  lemma ParseLineAt(line: string, pos: nat)
    requires line != [] && line[0] != '#' && line[0] != '['
    requires FindChar(line, '=') == Some(pos)
    ensures ParseLine(line) == Some((Trim(line[..pos]), Trim(line[pos + 1..])))
  {
  }

  /** `c` found in `b` after a prefix `a` without `c`. */
  lemma {:induction false} FindCharAfter(a: string, b: string, c: char)
    requires c !in a && b != [] && b[0] == c
    ensures FindChar(a + b, c) == Some(|a|)
    decreases |a|
  {
    if a != [] {
      assert (a + b)[1..] == a[1..] + b;
      FindCharAfter(a[1..], b, c);
    }
  }

  /** Whitespace padding disappears under `trim`. */
  lemma TrimPadding(s: string, left: string, right: string, t: string)
    requires Trim(s) == s && AllSpace(left) && AllSpace(right)
    requires t == left + s + right
    ensures Trim(t) == s
  {
    TrimSpec(s);
    if s == [] {
      assert AllSpace(t);
      TrimSpec(t);
    } else {
      assert SkipSpaces(t) == |left| by { SkipPrefix(left, s + right); assert t == left + (s + right); }
      assert EndOfText(t) == |left| + |s| by { EndSuffix(left + s, right); }
      assert t[|left|..|left| + |s|] == s;
    }
  }

  lemma {:induction false} SkipPrefix(left: string, rest: string)
    requires AllSpace(left) && rest != [] && !IsSpace(rest[0])
    ensures SkipSpaces(left + rest) == |left|
    decreases |left|
  {
    if left != [] {
      assert (left + rest)[1..] == left[1..] + rest;
      SkipPrefix(left[1..], rest);
    }
  }

  lemma {:induction false} EndSuffix(body: string, right: string)
    requires AllSpace(right) && body != [] && !IsSpace(body[|body| - 1])
    ensures EndOfText(body + right) == |body|
    decreases |right|
  {
    if right != [] {
      assert (body + right)[..|body + right| - 1] == body + right[..|right| - 1];
      EndSuffix(body, right[..|right| - 1]);
    }
  }

  // ------------------------------------------------------ ignore_patterns

  /** The pieces `s` joined with `sep` in between. */
  function JoinWith(pieces: seq<string>, sep: char): string
    decreases |pieces|
  {
    if pieces == [] then []
    else if |pieces| == 1 then pieces[0]
    else pieces[0] + [sep] + JoinWith(pieces[1..], sep)
  }

  /** The untrimmed pieces of `value` between commas: the `substr` calls of
      the splitting loop, which ends with the piece after the last comma. */
  function SplitAtCommas(value: string): (pieces: seq<string>)
    ensures pieces != []
    decreases |value|
  {
    match FindChar(value, ',')
    case None => [value]
    case Some(p) => [value[..p]] + SplitAtCommas(value[p + 1..])
  }

  /** Splitting at commas gives one piece more than there are commas, no
      piece holds a comma, and joining the pieces with commas gives the value
      back. */
  lemma SplitAtCommasSpec(value: string)
    ensures |SplitAtCommas(value)| == CountChar(value, ',') + 1
    ensures forall i :: 0 <= i < |SplitAtCommas(value)| ==> ',' !in SplitAtCommas(value)[i]
    ensures JoinWith(SplitAtCommas(value), ',') == value
  {
    SplitAtCommasCount(value);
    SplitAtCommasPieces(value);
    SplitAtCommasJoin(value);
  }

  lemma {:induction false} SplitAtCommasCount(value: string)
    ensures |SplitAtCommas(value)| == CountChar(value, ',') + 1
    decreases |value|
  {
    FindCharSpec(value, ',');
    match FindChar(value, ',')
    case None =>
      NoCharCount(value, ',');
    case Some(p) =>
      SplitAtCommasCount(value[p + 1..]);
      CountSplit(value, p, ',');
  }

  lemma {:induction false} SplitAtCommasPieces(value: string)
    ensures forall i :: 0 <= i < |SplitAtCommas(value)| ==> ',' !in SplitAtCommas(value)[i]
    decreases |value|
  {
    FindCharSpec(value, ',');
    match FindChar(value, ',')
    case None =>
    case Some(p) =>
      var rest := SplitAtCommas(value[p + 1..]);
      SplitAtCommasPieces(value[p + 1..]);
      var pieces := [value[..p]] + rest;
      assert SplitAtCommas(value) == pieces;
      forall i | 0 <= i < |pieces| ensures ',' !in pieces[i] {
        if i > 0 { assert pieces[i] == rest[i - 1]; }
      }
  }

  lemma {:induction false} SplitAtCommasJoin(value: string)
    ensures JoinWith(SplitAtCommas(value), ',') == value
    decreases |value|
  {
    match FindChar(value, ',')
    case None =>
    case Some(p) =>
      FindCharSpec(value, ',');
      var rest := SplitAtCommas(value[p + 1..]);
      SplitAtCommasJoin(value[p + 1..]);
      var pieces := [value[..p]] + rest;
      assert SplitAtCommas(value) == pieces;
      assert pieces[0] == value[..p] && pieces[1..] == rest && |pieces| > 1;
      assert JoinWith(pieces, ',') == value[..p] + [','] + JoinWith(rest, ',');
      assert value == value[..p] + [','] + value[p + 1..];
  }

  lemma {:induction false} NoCharCount(s: string, c: char)
    requires c !in s
    ensures CountChar(s, c) == 0
    decreases |s|
  {
    if s != [] { NoCharCount(s[1..], c); }
  }

  lemma {:induction false} CountSplit(s: string, p: nat, c: char)
    requires p < |s| && s[p] == c && c !in s[..p]
    ensures CountChar(s, c) == 1 + CountChar(s[p + 1..], c)
    decreases p
  {
    if p > 0 {
      assert s[1..][..p - 1] == s[1..p];
      assert s[1..][p..] == s[p + 1..];
      CountSplit(s[1..], p - 1, c);
    }
  }

  /** Each piece trimmed (`trim(value.substr(...))`), in order. */
  function TrimAll(pieces: seq<string>): seq<string>
    decreases |pieces|
  {
    if pieces == [] then [] else [Trim(pieces[0])] + TrimAll(pieces[1..])
  }

  lemma {:induction false} TrimAllSpec(pieces: seq<string>)
    ensures |TrimAll(pieces)| == |pieces|
    ensures forall i :: 0 <= i < |pieces| ==> TrimAll(pieces)[i] == Trim(pieces[i])
    decreases |pieces|
  {
    if pieces != [] {
      TrimAllSpec(pieces[1..]);
    }
  }

  /** The patterns an `ignore_patterns` value contributes: the trimmed
      comma-separated pieces, in order. */
  function SplitPatterns(value: string): seq<string> {
    TrimAll(SplitAtCommas(value))
  }

  /** A value with `k` commas gives `k + 1` patterns, each the trimmed text
      of its piece. */
  lemma SplitPatternsCount(value: string)
    ensures |SplitPatterns(value)| == CountChar(value, ',') + 1
    ensures |SplitAtCommas(value)| == |SplitPatterns(value)|
    ensures forall i :: 0 <= i < |SplitPatterns(value)| ==> SplitPatterns(value)[i] == Trim(SplitAtCommas(value)[i])
  {
    SplitAtCommasSpec(value);
    TrimAllSpec(SplitAtCommas(value));
  }

  /** One step of the splitting loop: the piece up to the first comma, then
      the patterns of the rest. */
  lemma SplitPatternsStep(value: string, p: nat)
    requires FindChar(value, ',') == Some(p)
    ensures SplitPatterns(value) == [Trim(value[..p])] + SplitPatterns(value[p + 1..])
  {
    var rest := SplitAtCommas(value[p + 1..]);
    var pieces := SplitAtCommas(value);
    assert pieces == [value[..p]] + rest;
    assert pieces[0] == value[..p] && pieces[1..] == rest;
    assert TrimAll(pieces) == [Trim(pieces[0])] + TrimAll(pieces[1..]);
  }

  /** The last piece, after the loop found no further comma. */
  lemma SplitPatternsLast(value: string)
    requires FindChar(value, ',').None?
    ensures SplitPatterns(value) == [Trim(value)]
  {
    assert SplitAtCommas(value) == [value];
    assert [value][1..] == [];
    assert TrimAll([value]) == [Trim(value)] + TrimAll([]);
  }

  // ---------------------------------------------------------------- stoi

  const IntMin := -0x8000_0000
  const IntMax := 0x7FFF_FFFF

  predicate IsDigit(c: char) {
    '0' <= c <= '9'
  }

  /** Length of the run of decimal digits at the front of `s`. */
  function DigitPrefix(s: string): (n: nat)
    ensures n <= |s|
    decreases |s|
  {
    if s == [] || !IsDigit(s[0]) then 0 else 1 + DigitPrefix(s[1..])
  }

  /** The run `DigitPrefix` measures is all digits and cannot be longer. */
  lemma {:induction false} DigitPrefixSpec(s: string)
    ensures forall k :: 0 <= k < DigitPrefix(s) ==> IsDigit(s[k])
    ensures DigitPrefix(s) < |s| ==> !IsDigit(s[DigitPrefix(s)])
    decreases |s|
  {
    if s != [] && IsDigit(s[0]) {
      DigitPrefixSpec(s[1..]);
      assert forall k :: 1 <= k < DigitPrefix(s) ==> s[k] == s[1..][k - 1];
    }
  }

  /** The number a string of decimal digits denotes. */
  function DigitsValue(d: string): nat
    requires forall k :: 0 <= k < |d| ==> IsDigit(d[k])
    decreases |d|
  {
    if d == [] then 0
    else
      assert IsDigit(d[|d| - 1]);
      DigitsValue(d[..|d| - 1]) * 10 + (d[|d| - 1] as int - '0' as int)
  }

  /** `std::stoi(s)`: skip leading whitespace, an optional sign, then the
      longest run of digits; no digit throws `invalid_argument`, a value
      outside `int` throws `out_of_range` (both report "stoi"). Text after the
      digits is ignored. */
  function Stoi(s: string): (r: Result<int>)
    ensures r.Success? ==> IntMin <= r.value <= IntMax
    ensures r.Failure? ==> r.error == "stoi"
  {
    var t := s[SkipSpaces(s)..];
    var negative := t != [] && t[0] == '-';
    var body := if t != [] && (t[0] == '-' || t[0] == '+') then t[1..] else t;
    var n := DigitPrefix(body);
    DigitPrefixSpec(body);
    if n == 0 then Failure("stoi")
    else
      var magnitude := DigitsValue(body[..n]);
      var m: int := magnitude;
      var v := if negative then -m else m;
      if v < IntMin || v > IntMax then Failure("stoi") else Success(v)
  }

  /** Decimal notation of a natural number, without leading zeros. */
  function ToDecimal(n: nat): (s: string)
    ensures s != [] && forall k :: 0 <= k < |s| ==> IsDigit(s[k])
    decreases n
  {
    var d := [('0' as int + n % 10) as char];
    if n < 10 then d else ToDecimal(n / 10) + d
  }

  lemma {:induction false} DecimalValue(n: nat)
    ensures DigitsValue(ToDecimal(n)) == n
    decreases n
  {
    if n >= 10 {
      DecimalValue(n / 10);
      var s := ToDecimal(n);
      assert s[..|s| - 1] == ToDecimal(n / 10);
    }
  }

  /** `stoi` reads back every `int` written in decimal, with or without a
      minus sign. */
  lemma StoiDecimal(n: nat, negative: bool)
    requires if negative then n <= -IntMin else n <= IntMax
    ensures Stoi(if negative then "-" + ToDecimal(n) else ToDecimal(n)) == Success(if negative then -(n as int) else n)
  {
    var d := ToDecimal(n);
    var s := if negative then "-" + d else d;
    assert SkipSpaces(s) == 0;
    assert s[0..] == s;
    var body := if negative then s[1..] else s;
    assert body == d;
    assert DigitPrefix(d) == |d| by { AllDigitsPrefix(d); }
    assert d[..|d|] == d;
    DecimalValue(n);
  }

  lemma {:induction false} AllDigitsPrefix(d: string)
    requires forall k :: 0 <= k < |d| ==> IsDigit(d[k])
    ensures DigitPrefix(d) == |d|
    decreases |d|
  {
    if d != [] { AllDigitsPrefix(d[1..]); }
  }

  // ---------------------------------------------------------- settings

  /** The configurable fields of `Core::Impl`. */
  datatype Settings = Settings(autosaveInterval: int, idleThreshold: int, maxSnapshots: int, ignorePatterns: seq<string>)

  /** The member initialisers: 30 s interval, 5 s idle threshold, 100
      snapshots, no ignore patterns. */
  const InitialSettings := Settings(30, 5, 100, [])

  /** The effect of one line of clay.conf. A recognised numeric key sets its
      own field, or throws when `stoi` does; `ignore_patterns` appends its
      patterns; every other line changes nothing. */
  function ApplyLine(cfg: Settings, line: string): (r: Result<Settings>)
    ensures ParseLine(line).None? ==> r == Success(cfg)
    ensures ParseLine(line).Some? && ParseLine(line).value.0 !in NumericKeys ==> r.Success?
    ensures ParseLine(line).Some? && ParseLine(line).value.0 in NumericKeys ==>
              (r.Success? <==> Stoi(ParseLine(line).value.1).Success?)
    ensures r.Failure? ==> ParseLine(line).Some? && r == Failure(Stoi(ParseLine(line).value.1).error)
    ensures r.Success? && ParseLine(line).Some? ==>
              var (key, value) := ParseLine(line).value;
              && r.value.autosaveInterval == (if key == "autosave_interval" then Stoi(value).value else cfg.autosaveInterval)
              && r.value.idleThreshold == (if key == "idle_threshold" then Stoi(value).value else cfg.idleThreshold)
              && r.value.maxSnapshots == (if key == "max_snapshots" then Stoi(value).value else cfg.maxSnapshots)
              && r.value.ignorePatterns ==
                   cfg.ignorePatterns + (if key == "ignore_patterns" then SplitPatterns(value) else [])
  {
    match ParseLine(line)
    case None => Success(cfg)
    case Some((key, value)) =>
      if key == "autosave_interval" then
        match Stoi(value)
        case Failure(e) => Failure(e)
        case Success(n) => Success(cfg.(autosaveInterval := n))
      else if key == "idle_threshold" then
        match Stoi(value)
        case Failure(e) => Failure(e)
        case Success(n) => Success(cfg.(idleThreshold := n))
      else if key == "max_snapshots" then
        match Stoi(value)
        case Failure(e) => Failure(e)
        case Success(n) => Success(cfg.(maxSnapshots := n))
      else if key == "ignore_patterns" then
        Success(cfg.(ignorePatterns := cfg.ignorePatterns + SplitPatterns(value)))
      else
        Success(cfg)
  }

  /** The keys whose value `loadIgnorePatterns` converts with `stoi`. */
  const NumericKeys: set<string> := {"autosave_interval", "idle_threshold", "max_snapshots"}

  /** The settings after reading `lines` in order, and whether the reading
      stopped at a throwing `stoi`; the lines before it keep their effect. */
  datatype Loaded = Loaded(settings: Settings, outcome: Outcome)

  function ApplyLines(cfg: Settings, lines: seq<string>): Loaded
    decreases |lines|
  {
    if lines == [] then Loaded(cfg, Pass)
    else match ApplyLine(cfg, lines[0])
      case Failure(e) => Loaded(cfg, Fail(e))
      case Success(next) => ApplyLines(next, lines[1..])
  }

  /** Reading stops at a bad line, wherever it is: appending lines after a
      failure changes nothing; reading in two parts is reading once. */
  lemma {:induction false} ApplyLinesAppend(cfg: Settings, a: seq<string>, b: seq<string>)
    ensures ApplyLines(cfg, a + b) ==
              (var la := ApplyLines(cfg, a);
               if la.outcome.Fail? then la else ApplyLines(la.settings, b))
    decreases |a|
  {
    if a != [] {
      assert (a + b)[0] == a[0] && (a + b)[1..] == a[1..] + b;
      if ApplyLine(cfg, a[0]).Success? {
        ApplyLinesAppend(ApplyLine(cfg, a[0]).value, a[1..], b);
      }
    } else {
      assert a + b == b;
    }
  }

  /** Lines with no `key = value` pair leave every setting as it was. */
  lemma {:induction false} SkippedLinesChangeNothing(cfg: Settings, lines: seq<string>)
    requires forall i :: 0 <= i < |lines| ==> ParseLine(lines[i]).None?
    ensures ApplyLines(cfg, lines) == Loaded(cfg, Pass)
    decreases |lines|
  {
    if lines != [] {
      SkippedLinesChangeNothing(cfg, lines[1..]);
    }
  }

  /** `std::getline` over a whole file: the text between newlines, where a
      final newline does not start another line. */
  function SplitLines(text: string): seq<string>
    decreases |text|
  {
    if text == [] then []
    else match FindChar(text, '\n')
      case None => [text]
      case Some(p) => [text[..p]] + SplitLines(text[p + 1..])
  }

  /** Lines of a file read back: a text whose every line ends in a newline
      splits into exactly those lines. */
  lemma {:induction false} SplitLinesOfLines(lines: seq<string>)
    requires forall i :: 0 <= i < |lines| ==> '\n' !in lines[i]
    ensures SplitLines(Unlines(lines)) == lines
    decreases |lines|
  {
    if lines != [] {
      var text := Unlines(lines);
      assert text == lines[0] + "\n" + Unlines(lines[1..]);
      FindCharAfter(lines[0], "\n" + Unlines(lines[1..]), '\n');
      assert text == lines[0] + ("\n" + Unlines(lines[1..]));
      assert text[..|lines[0]|] == lines[0];
      assert text[|lines[0]| + 1..] == Unlines(lines[1..]);
      SplitLinesOfLines(lines[1..]);
    }
  }

  /** Each line followed by a newline. */
  function Unlines(lines: seq<string>): string
    decreases |lines|
  {
    if lines == [] then [] else lines[0] + "\n" + Unlines(lines[1..])
  }

  /** `DEFAULT_CONFIG`, the text `init` writes to a missing clay.conf. */
  const DefaultConfig := "\n[core]\nautosave_interval = 30\nidle_threshold = 5\nmax_snapshots = 100\nignore_patterns = *.tmp, *.swp, build/, .git/\n"
}
