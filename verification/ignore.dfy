/** The ignore filter of `Core::Impl::isIgnored` (src/core.cpp): a pattern
    without `*` must equal the workspace-relative path; a pattern with `*` is
    matched against the whole path, case-insensitively, each `*` standing
    for any run of characters. */
module Ignore {
  import opened Text

  /** Two strings equal up to ASCII case (`std::regex::icase`). */
  predicate EqualIgnoringCase(a: string, b: string) {
    |a| == |b| && forall i :: 0 <= i < |a| ==> Lower(a[i]) == Lower(b[i])
  }

  /** Whole-string wildcard match: `*` matches any substring, every other
      pattern character matches itself ignoring case. */
  predicate WildMatch(p: string, s: string)
    decreases |p| + |s|
  {
    if p == [] then s == []
    else if p[0] == '*' then WildMatch(p[1..], s) || (s != [] && WildMatch(p, s[1..]))
    else s != [] && Lower(p[0]) == Lower(s[0]) && WildMatch(p[1..], s[1..])
  }

  // ---- reference definition: a match is a choice of text for each `*`

  /** The pattern with its `i`-th `*` replaced by `fills[i]`. */
  function Fill(p: string, fills: seq<string>): string
    requires |fills| == CountChar(p, '*')
    decreases |p|
  {
    if p == [] then []
    else if p[0] == '*' then fills[0] + Fill(p[1..], fills[1..])
    else [p[0]] + Fill(p[1..], fills)
  }

  /** Every choice of texts for the stars yields a string the pattern
      matches. */
  lemma {:induction false} FillMatches(p: string, fills: seq<string>, s: string)
    requires |fills| == CountChar(p, '*')
    requires EqualIgnoringCase(Fill(p, fills), s)
    ensures WildMatch(p, s)
    decreases |p| + |s|
  {
    if p == [] {
    } else if p[0] == '*' {
      if fills[0] == [] {
        assert Fill(p, fills) == Fill(p[1..], fills[1..]);
        FillMatches(p[1..], fills[1..], s);
      } else {
        var shorter := [fills[0][1..]] + fills[1..];
        assert shorter[1..] == fills[1..];
        assert Fill(p, fills) == [fills[0][0]] + Fill(p, shorter);
        assert EqualIgnoringCase(Fill(p, shorter), s[1..]) by {
          var f := Fill(p, fills);
          assert forall i :: 0 <= i < |f| - 1 ==> Fill(p, shorter)[i] == f[i + 1];
        }
        FillMatches(p, shorter, s[1..]);
      }
    } else {
      var f := Fill(p, fills);
      assert f == [p[0]] + Fill(p[1..], fills);
      assert Lower(f[0]) == Lower(s[0]);
      assert EqualIgnoringCase(Fill(p[1..], fills), s[1..]) by {
        assert forall i :: 0 <= i < |f| - 1 ==> Fill(p[1..], fills)[i] == f[i + 1];
      }
      FillMatches(p[1..], fills, s[1..]);
    }
  }

  /** Every match comes from a choice of texts for the stars, and the text
      chosen for a star is a piece of the path itself. */
  lemma {:induction false} MatchFill(p: string, s: string) returns (fills: seq<string>)
    requires WildMatch(p, s)
    ensures |fills| == CountChar(p, '*')
    ensures EqualIgnoringCase(Fill(p, fills), s)
    decreases |p| + |s|
  {
    if p == [] {
      fills := [];
    } else if p[0] == '*' {
      if WildMatch(p[1..], s) {
        var rest := MatchFill(p[1..], s);
        fills := [[]] + rest;
        assert fills[1..] == rest;
        assert Fill(p, fills) == Fill(p[1..], rest);
      } else {
        var rest := MatchFill(p, s[1..]);
        fills := [[s[0]] + rest[0]] + rest[1..];
        assert fills[1..] == rest[1..];
        assert Fill(p, fills) == [s[0]] + Fill(p, rest);
      }
    } else {
      fills := MatchFill(p[1..], s[1..]);
      assert Fill(p, fills) == [p[0]] + Fill(p[1..], fills);
    }
  }

  /** `WildMatch` is exactly glob matching. */
  lemma WildMatchMeansFill(p: string, s: string)
    ensures WildMatch(p, s) <==>
              exists fills :: |fills| == CountChar(p, '*') && EqualIgnoringCase(Fill(p, fills), s)
  {
    if WildMatch(p, s) {
      var fills := MatchFill(p, s);
    }
    if exists fills :: |fills| == CountChar(p, '*') && EqualIgnoringCase(Fill(p, fills), s) {
      var fills :| |fills| == CountChar(p, '*') && EqualIgnoringCase(Fill(p, fills), s);
      FillMatches(p, fills, s);
    }
  }

  /** A pattern without stars is its own only filling. */
  lemma {:induction false} FillNoStar(p: string)
    requires '*' !in p
    ensures CountChar(p, '*') == 0 && Fill(p, []) == p
    decreases |p|
  {
    if p != [] {
      FillNoStar(p[1..]);
    }
  }

  /** Without stars, the wildcard match is equality ignoring case. */
  lemma WildMatchNoStar(p: string, s: string)
    requires '*' !in p
    ensures WildMatch(p, s) <==> EqualIgnoringCase(p, s)
  {
    FillNoStar(p);
    WildMatchMeansFill(p, s);
    if WildMatch(p, s) {
      var fills :| |fills| == CountChar(p, '*') && EqualIgnoringCase(Fill(p, fills), s);
      assert fills == [];
    }
  }

  /** `*ext` (for instance `*.tmp`) matches exactly the paths that end in
      `ext`, ignoring case. */
  lemma WildMatchSuffix(ext: string, s: string)
    requires '*' !in ext
    ensures WildMatch("*" + ext, s) <==>
              |ext| <= |s| && EqualIgnoringCase(ext, s[|s| - |ext|..])
  {
    if WildMatch("*" + ext, s) {
      SuffixOfMatch(ext, s);
    }
    if |ext| <= |s| && EqualIgnoringCase(ext, s[|s| - |ext|..]) {
      SuffixMatches(ext, s);
    }
  }

  /** A leading `*` may swallow any prefix of the path. */
  lemma {:induction false} StarSkips(p: string, s: string, k: nat)
    requires p != [] && p[0] == '*' && k <= |s|
    requires WildMatch(p[1..], s[k..])
    ensures WildMatch(p, s)
    decreases k
  {
    if k == 0 {
      assert s[k..] == s;
    } else {
      assert s[1..][k - 1..] == s[k..];
      StarSkips(p, s[1..], k - 1);
    }
  }

  /** A leading `*` always swallows some prefix of the path. */
  lemma {:induction false} StarSplit(p: string, s: string) returns (k: nat)
    requires p != [] && p[0] == '*'
    requires WildMatch(p, s)
    ensures k <= |s| && WildMatch(p[1..], s[k..])
    decreases |s|
  {
    if WildMatch(p[1..], s) {
      k := 0;
      assert s[k..] == s;
    } else {
      var j := StarSplit(p, s[1..]);
      k := j + 1;
      assert s[1..][j..] == s[k..];
    }
  }

  lemma SuffixMatches(ext: string, s: string)
    requires '*' !in ext
    requires |ext| <= |s| && EqualIgnoringCase(ext, s[|s| - |ext|..])
    ensures WildMatch("*" + ext, s)
  {
    var p := "*" + ext;
    assert p[1..] == ext;
    WildMatchNoStar(ext, s[|s| - |ext|..]);
    StarSkips(p, s, |s| - |ext|);
  }

  lemma SuffixOfMatch(ext: string, s: string)
    requires '*' !in ext
    requires WildMatch("*" + ext, s)
    ensures |ext| <= |s| && EqualIgnoringCase(ext, s[|s| - |ext|..])
  {
    var p := "*" + ext;
    assert p[1..] == ext;
    var k := StarSplit(p, s);
    WildMatchNoStar(ext, s[k..]);
  }

  // ---- isIgnored

  /** One pattern against a relative path: exact (case-sensitive) equality
      when the pattern has no `*`, the wildcard match otherwise. */
  predicate PatternMatches(pattern: string, relPath: string) {
    if '*' in pattern then WildMatch(pattern, relPath) else relPath == pattern
  }

  /** `isIgnored`: some pattern of the list matches the path; the patterns
      are tried in order and the first match answers. */
  function IsIgnored(relPath: string, patterns: seq<string>): (r: bool)
    ensures r <==> exists i :: 0 <= i < |patterns| && PatternMatches(patterns[i], relPath)
    decreases |patterns|
  {
    if patterns == [] then false
    else if PatternMatches(patterns[0], relPath) then true
    else
      assert forall i :: 1 <= i < |patterns| ==> patterns[i] == patterns[1..][i - 1];
      IsIgnored(relPath, patterns[1..])
  }

  /** The default patterns ignore every path ending in `.tmp` in any letter
      case, and the exact path `build/`. */
  lemma DefaultPatterns(name: string)
    ensures |name| >= 4 && EqualIgnoringCase(".tmp", name[|name| - 4..]) ==> IsIgnored(name, DefaultList)
    ensures IsIgnored("build/", DefaultList)
  {
    if |name| >= 4 && EqualIgnoringCase(".tmp", name[|name| - 4..]) {
      DefaultIgnoresTmp(name);
    }
    DefaultIgnoresBuild();
  }

  /** The default `ignore_patterns` list of the configuration. */
  const DefaultList: seq<string> := ["*.tmp", "*.swp", "build/", ".git/"]

  lemma DefaultIgnoresTmp(name: string)
    requires |name| >= 4 && EqualIgnoringCase(".tmp", name[|name| - 4..])
    ensures IsIgnored(name, DefaultList)
  {
    DefaultFirst();
    SuffixPatternIgnores(".tmp", name, DefaultList, 0);
  }

  /** The first default pattern is `*` followed by `.tmp`, which holds no
      `*`. */
  lemma DefaultFirst()
    ensures DefaultList[0] == "*" + ".tmp" && '*' !in ".tmp"
  {
    assert "*" + ".tmp" == "*.tmp";
  }

  /** A list holding the pattern `*ext` ignores every path ending in `ext`,
      ignoring case. */
  lemma SuffixPatternIgnores(ext: string, name: string, patterns: seq<string>, i: nat)
    requires '*' !in ext && i < |patterns| && patterns[i] == "*" + ext
    requires |ext| <= |name| && EqualIgnoringCase(ext, name[|name| - |ext|..])
    ensures IsIgnored(name, patterns)
  {
    WildMatchSuffix(ext, name);
    assert ("*" + ext)[0] == '*';
    assert PatternMatches(patterns[i], name);
  }

  /** Upper-case `.TMP` files are among them. */
  lemma DefaultIgnoresUpperTmp(name: string)
    ensures IsIgnored(name + ".TMP", DefaultList)
  {
    var s := name + ".TMP";
    assert s[|s| - 4..] == ".TMP";
    assert EqualIgnoringCase(".tmp", ".TMP");
    DefaultIgnoresTmp(s);
  }

  lemma DefaultIgnoresBuild()
    ensures IsIgnored("build/", DefaultList)
  {
    assert DefaultList[2] == "build/";
    assert '*' !in "build/";
    assert PatternMatches(DefaultList[2], "build/");
  }

  // ---- the pattern as the source hands it to std::regex

  /** An ECMAScript line terminator, which `.` does not match. */
  predicate LineBreak(c: char) {
    c == '\n' || c == '\r'
  }

  /** The source rewrites each `*` to `.*` and compiles the rest of the
      pattern as a regular expression, so a `.` of the pattern matches any
      character but a line terminator, and so does each step of `.*`. Only
      `*`, `.` and literal characters are modelled. */
  predicate RegexMatch(p: string, s: string)
    decreases |p| + |s|
  {
    if p == [] then s == []
    else if p[0] == '*' then RegexMatch(p[1..], s) || (s != [] && !LineBreak(s[0]) && RegexMatch(p, s[1..]))
    else if p[0] == '.' then s != [] && !LineBreak(s[0]) && RegexMatch(p[1..], s[1..])
    else s != [] && Lower(p[0]) == Lower(s[0]) && RegexMatch(p[1..], s[1..])
  }

  /** The regex ignores `footmp` under the pattern `*.tmp`, which the glob
      reading does not. */
  lemma RegexDotMatchesAnything()
    ensures RegexMatch("*.tmp", "footmp")
    ensures !WildMatch("*.tmp", "footmp")
  {
    assert RegexMatch(".tmp", "ftmp");
    assert RegexMatch("*.tmp", "ftmp");
    assert RegexMatch("*.tmp", "oftmp"[1..]);
    assert "footmp"[1..] == "ootmp" && "ootmp"[1..] == "otmp" && "otmp"[1..] == "tmp";
    GlobRejectsFootmp();
  }

  lemma GlobRejectsFootmp()
    ensures !WildMatch("*.tmp", "footmp")
  {
    var s := "footmp";
    assert "*" + ".tmp" == "*.tmp";
    WildMatchSuffix(".tmp", s);
    assert s[|s| - 4..] == "otmp";
    assert Lower(".tmp"[0]) != Lower("otmp"[0]);
    assert !EqualIgnoringCase(".tmp", "otmp");
  }

  /** Where the pattern has no `.` and the path no line terminator, the regex
      and the glob agree. */
  lemma {:induction false} RegexAgrees(p: string, s: string)
    requires '.' !in p
    requires forall i :: 0 <= i < |s| ==> !LineBreak(s[i])
    ensures RegexMatch(p, s) == WildMatch(p, s)
    decreases |p| + |s|
  {
    if p == [] {
    } else if p[0] == '*' {
      RegexAgrees(p[1..], s);
      if s != [] { RegexAgrees(p, s[1..]); }
    } else if s != [] {
      RegexAgrees(p[1..], s[1..]);
    }
  }
}
