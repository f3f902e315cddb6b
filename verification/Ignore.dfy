/** Names that are always ignored, and the user's share-relative patterns. */
module IgnorePatterns {
  import opened Paths
  import opened Prelude

  /** Whether one path segment matches one pattern segment, which stays uninterpreted. */
  type Segment = (string, string) -> bool

  datatype Pattern = Pattern(parts: seq<string>, directory: bool, anySegment: bool)

  const ANY_RUN := "**"

  function MatchParts(segment: Segment, patterns: seq<string>, values: seq<string>): bool
    decreases |patterns| + |values|
  {
    if patterns == [] then values == []
    else if patterns[0] == ANY_RUN then
      MatchParts(segment, patterns[1..], values) || (values != [] && MatchParts(segment, patterns, values[1..]))
    else values != [] && segment(patterns[0], values[0]) && MatchParts(segment, patterns[1..], values[1..])
  }

  /** `cut[i]..cut[i + 1]` is the run of path segments that the i-th pattern segment takes. */
  ghost predicate Cut(segment: Segment, patterns: seq<string>, values: seq<string>, cut: seq<int>) {
    && |cut| == |patterns| + 1
    && cut[0] == 0 && cut[|patterns|] == |values|
    && forall i | 0 <= i < |patterns| :: Takes(segment, patterns[i], values, cut[i], cut[i + 1])
  }

  ghost predicate Takes(segment: Segment, pattern: string, values: seq<string>, from: int, to: int) {
    && 0 <= from <= to <= |values|
    && (pattern != ANY_RUN ==> to == from + 1 && segment(pattern, values[from]))
  }

  lemma {:induction false} MatchHasCut(segment: Segment, patterns: seq<string>, values: seq<string>)
    requires MatchParts(segment, patterns, values)
    ensures exists cut :: Cut(segment, patterns, values, cut)
    decreases |patterns| + |values|
  {
    if patterns == [] {
      assert Cut(segment, patterns, values, [0]);
    } else if patterns[0] == ANY_RUN && MatchParts(segment, patterns[1..], values) {
      MatchHasCut(segment, patterns[1..], values);
      var cut :| Cut(segment, patterns[1..], values, cut);
      CutPrepended(segment, patterns, values, cut, 0);
    } else if patterns[0] == ANY_RUN {
      MatchHasCut(segment, patterns, values[1..]);
      var cut :| Cut(segment, patterns, values[1..], cut);
      RunExtended(segment, patterns, values, cut);
    } else {
      MatchHasCut(segment, patterns[1..], values[1..]);
      var cut :| Cut(segment, patterns[1..], values[1..], cut);
      CutPrepended(segment, patterns, values, cut, 1);
    }
  }

  /** A cut of the rest, shifted past the segments the first pattern segment takes. */
  lemma CutPrepended(segment: Segment, patterns: seq<string>, values: seq<string>, cut: seq<int>, taken: nat)
    requires patterns != [] && taken <= |values| && Takes(segment, patterns[0], values, 0, taken)
    requires Cut(segment, patterns[1..], values[taken..], cut)
    ensures exists c :: Cut(segment, patterns, values, c)
  {
    var c := [0] + Shift(cut, taken);
    forall i | 0 <= i < |patterns| ensures Takes(segment, patterns[i], values, c[i], c[i + 1]) {
      if i > 0 {
        assert Takes(segment, patterns[1..][i - 1], values[taken..], cut[i - 1], cut[i]);
      }
    }
    assert Cut(segment, patterns, values, c);
  }

  /** A run that starts one segment earlier. */
  lemma RunExtended(segment: Segment, patterns: seq<string>, values: seq<string>, cut: seq<int>)
    requires patterns != [] && patterns[0] == ANY_RUN && values != []
    requires Cut(segment, patterns, values[1..], cut)
    ensures exists c :: Cut(segment, patterns, values, c)
  {
    var c := [0] + Shift(cut, 1)[1..];
    forall i | 0 <= i < |patterns| ensures Takes(segment, patterns[i], values, c[i], c[i + 1]) {
      assert Takes(segment, patterns[i], values[1..], cut[i], cut[i + 1]);
    }
    assert Cut(segment, patterns, values, c);
  }

  function Shift(cut: seq<int>, offset: int): (shifted: seq<int>)
    ensures |shifted| == |cut| && forall i | 0 <= i < |cut| :: shifted[i] == cut[i] + offset
  {
    seq(|cut|, i requires 0 <= i < |cut| => cut[i] + offset)
  }

  lemma {:induction false} CutMatches(segment: Segment, patterns: seq<string>, values: seq<string>, cut: seq<int>)
    requires Cut(segment, patterns, values, cut)
    ensures MatchParts(segment, patterns, values)
    decreases |patterns| + |values|
  {
    if patterns != [] {
      assert Takes(segment, patterns[0], values, cut[0], cut[1]);
      var taken := if patterns[0] == ANY_RUN && cut[1] > 0 then 1 else cut[1];
      if patterns[0] == ANY_RUN && cut[1] > 0 {
        var c := [0] + Shift(cut, -1)[1..];
        CutLater(segment, patterns, values, cut, 1);
        forall i | 0 <= i < |patterns| ensures Takes(segment, patterns[i], values[1..], c[i], c[i + 1]) {
          assert Takes(segment, patterns[i], values, cut[i], cut[i + 1]);
        }
        CutMatches(segment, patterns, values[1..], c);
      } else {
        var c := Shift(cut[1..], -taken);
        CutLater(segment, patterns, values, cut, 1);
        forall i | 0 <= i < |patterns| - 1 ensures Takes(segment, patterns[1..][i], values[taken..], c[i], c[i + 1]) {
          assert Takes(segment, patterns[i + 1], values, cut[i + 1], cut[i + 2]);
        }
        CutMatches(segment, patterns[1..], values[taken..], c);
      }
    }
  }

  /** Cuts do not go back. */
  lemma {:induction false} CutLater(segment: Segment, patterns: seq<string>, values: seq<string>, cut: seq<int>, n: nat)
    requires Cut(segment, patterns, values, cut) && n <= |patterns|
    ensures forall i | n <= i <= |patterns| :: cut[n] <= cut[i]
    decreases |patterns| - n
  {
    if n < |patterns| {
      assert Takes(segment, patterns[n], values, cut[n], cut[n + 1]);
      CutLater(segment, patterns, values, cut, n + 1);
    }
  }

  /** The matcher accepts exactly when the path can be cut so that every `**` takes any run of segments and every other
      pattern segment takes one segment that matches it. */
  lemma MatchPartsIffCut(segment: Segment, patterns: seq<string>, values: seq<string>)
    ensures MatchParts(segment, patterns, values) <==> exists cut :: Cut(segment, patterns, values, cut)
  {
    if MatchParts(segment, patterns, values) {
      MatchHasCut(segment, patterns, values);
    }
    if cut :| Cut(segment, patterns, values, cut) {
      CutMatches(segment, patterns, values, cut);
    }
  }

  /** A run matches any path, the empty one too; in front of a name it matches the name at any depth, behind one
      everything from there on. */
  lemma {:induction false} RunForms(segment: Segment, name: string, values: seq<string>)
    requires name != ANY_RUN
    ensures MatchParts(segment, ["**"], values)
    ensures MatchParts(segment, ["**", name], values) <==> values != [] && segment(name, values[|values| - 1])
    ensures MatchParts(segment, [name, "**"], values) <==> values != [] && segment(name, values[0])
  {
    assert ["**"][1..] == [] && ["**", name][1..] == [name] && [name, "**"][1..] == ["**"] && [name][1..] == [];
    if values != [] {
      RunForms(segment, name, values[1..]);
      if |values| > 1 {
        assert values[1..][|values| - 2] == values[|values| - 1];
      }
      assert MatchParts(segment, [name], values) <==> values[1..] == [] && segment(name, values[0]);
    }
  }

  predicate Usable(p: Pattern) {
    p.parts != []
  }

  /** An unanchored pattern matches any one segment of the path; any other matches the whole path. */
  predicate PatternMatches(segment: Segment, p: Pattern, parts: seq<string>)
    requires Usable(p)
  {
    if p.anySegment then
      exists i | 0 <= i < |parts| :: segment(p.parts[0], parts[i])
    else
      MatchParts(segment, p.parts, parts)
  }

  method MatchPatternParts(segment: Segment, p: Pattern, parts: seq<string>) returns (matched: bool)
    requires Usable(p)
    ensures matched == PatternMatches(segment, p, parts)
  {
    if p.anySegment {
      for i := 0 to |parts|
        invariant forall j | 0 <= j < i :: !segment(p.parts[0], parts[j])
      {
        if segment(p.parts[0], parts[i]) {
          return true;
        }
      }
      return false;
    }
    matched := MatchParts(segment, p.parts, parts);
  }

  /** Without leading and trailing slashes. */
  function TrimSlashes(s: string): string {
    if s != "" && s[0] == '/' then TrimSlashes(s[1..])
    else if s != "" && s[|s| - 1] == '/' then TrimSlashes(s[..|s| - 1])
    else s
  }

  /** What is cut off is slashes, and none is left at either end. */
  lemma {:induction false} TrimmedExactly(s: string)
    ensures var t := TrimSlashes(s);
      && (t != "" ==> t[0] != '/' && t[|t| - 1] != '/')
      && exists front, back :: s == front + t + back && (forall c | c in front + back :: c == '/')
    decreases |s|
  {
    var t := TrimSlashes(s);
    if s != "" && s[0] == '/' {
      TrimmedExactly(s[1..]);
      var front, back :| s[1..] == front + t + back && forall c | c in front + back :: c == '/';
      SlashInFront(s, front, t, back);
    } else if s != "" && s[|s| - 1] == '/' {
      var shorter := s[..|s| - 1];
      TrimmedExactly(shorter);
      var front, back :| shorter == front + t + back && forall c | c in front + back :: c == '/';
      SlashBehind(s, front, t, back);
    } else {
      assert s == "" + t + "";
    }
  }

  lemma SlashInFront(s: string, front: string, t: string, back: string)
    requires s != "" && s[0] == '/' && s[1..] == front + t + back && forall c | c in front + back :: c == '/'
    ensures s == ("/" + front) + t + back && forall c | c in ("/" + front) + back :: c == '/'
  {
    forall c | c in ("/" + front) + back ensures c == '/' {
      assert c == '/' || c in front + back;
    }
  }

  lemma SlashBehind(s: string, front: string, t: string, back: string)
    requires s != "" && s[|s| - 1] == '/' && s[..|s| - 1] == front + t + back
    requires forall c | c in front + back :: c == '/'
    ensures s == front + t + (back + "/") && forall c | c in front + (back + "/") :: c == '/'
  {
    forall c | c in front + (back + "/") ensures c == '/' {
      assert c == '/' || c in front + back;
    }
  }

  /** Compiles the user's patterns; negation is not available here. `clean` is the lexical path cleaner. */
  method NewIgnore(patterns: seq<string>, clean: string -> string) returns (r: Result<seq<Pattern>>)
    ensures r.Ok? ==> |r.value| == |patterns| && forall p | p in r.value :: Usable(p)
    ensures r.Ok? ==> forall i | 0 <= i < |patterns| :: Compiled(patterns[i], clean) == Ok(r.value[i])
    ensures r.Err? ==> exists i :: 0 <= i < |patterns| && Compiled(patterns[i], clean).Err?
  {
    var compiled: seq<Pattern> := [];
    for i := 0 to |patterns|
      invariant |compiled| == i
      invariant forall p | p in compiled :: Usable(p)
      invariant forall j | 0 <= j < i :: Compiled(patterns[j], clean) == Ok(compiled[j])
    {
      var one := Compiled(patterns[i], clean);
      if one.Err? {
        return Err(one.reason);
      }
      compiled := compiled + [one.value];
    }
    r := Ok(compiled);
  }

  function TrimSuffixSlash(s: string): string {
    if s != "" && s[|s| - 1] == '/' then s[..|s| - 1] else s
  }

  function Compiled(raw: string, clean: string -> string): (r: Result<Pattern>)
    ensures r.Ok? ==> Usable(r.value)
  {
    if raw == "" || raw[0] == '!' then Err("invalid ignore pattern")
    else
      var trimmed := TrimSuffixSlash(raw);
      var text := if "./" <= trimmed then trimmed[2..] else trimmed;
      if text == "" then Err("invalid ignore pattern")
      else Ok(Pattern(Split(clean(text)), trimmed != raw, '/' !in text))
  }

  /** Every form of a user's pattern: a leading "./" is dropped, a trailing slash limits it to directories, a slash in
      front or inside anchors it to the whole path, and anything else matches one segment anywhere. */
  lemma PatternForms(body: string, dotted: bool, directory: bool, clean: string -> string)
    requires body != "" && body[|body| - 1] != '/' && body[0] != '!' && !("./" <= body)
    ensures Compiled((if dotted then "./" else "") + body + (if directory then "/" else ""), clean) ==
      Ok(Pattern(Split(clean(body)), directory, '/' !in body))
  {
    var shown := (if dotted then "./" else "") + body;
    var raw := shown + if directory then "/" else "";
    assert shown[|shown| - 1] == body[|body| - 1];
    assert directory ==> raw[..|raw| - 1] == shown;
    assert !directory ==> raw == shown;
    assert TrimSuffixSlash(raw) == shown;
    assert dotted ==> shown[2..] == body;
    assert !dotted ==> shown == body;
  }

  /** Negation and patterns with nothing to match are refused. */
  lemma RefusedPatterns(text: string, clean: string -> string)
    ensures Compiled("!" + text, clean).Err? && Compiled("", clean).Err? && Compiled("/", clean).Err?
  {
    assert "/"[..0] == "";
  }

  /** The anchor is the path's own first segment, so a pattern with a slash in front matches nothing: the path it is
      compared with has none. */
  lemma RootedPatternMatchesNothing(segment: Segment, body: string, clean: string -> string, relative: string)
    requires clean("/" + body) != "" && clean("/" + body)[0] == '/'
    requires forall value :: segment("", value) <==> value == ""
    requires relative != "" && relative[0] != '/'
    ensures !PatternMatches(segment, Pattern(Split(clean("/" + body)), false, false), Split(relative))
  {
  }

  /** Any pattern that applies to the kind of path and matches it. */
  method Match(segment: Segment, patterns: seq<Pattern>, relative: string, isDir: bool) returns (ignored: bool)
    requires forall p | p in patterns :: Usable(p)
    ensures ignored <==>
      TrimSlashes(relative) != "" &&
      exists i | 0 <= i < |patterns| ::
        (patterns[i].directory ==> isDir) && PatternMatches(segment, patterns[i], Split(TrimSlashes(relative)))
  {
    var parts := Split(TrimSlashes(relative));
    OnlyEmpty(TrimSlashes(relative));
    if |parts| == 1 && parts[0] == "" {
      return false;
    }
    for i := 0 to |patterns|
      invariant forall j | 0 <= j < i ::
        !((patterns[j].directory ==> isDir) && PatternMatches(segment, patterns[j], parts))
    {
      if !patterns[i].directory || isDir {
        var matched := MatchPatternParts(segment, patterns[i], parts);
        if matched {
          return true;
        }
      }
    }
    ignored := false;
  }

  lemma OnlyEmpty(s: string)
    ensures Split(s) == [""] <==> s == ""
  {
    JoinSplit(s);
  }

  const ALWAYS_IGNORED := {".git", ".svn", ".hg", "node_modules", ".DS_Store", "Thumbs.db", ".l2sync-trash", ".l2sync"}

  predicate Contains(s: string, word: string) {
    exists i | 0 <= i <= |s| :: word <= s[i..]
  }

  predicate HasSuffix(s: string, suffix: string) {
    |suffix| <= |s| && s[|s| - |suffix|..] == suffix
  }

  predicate DefaultIgnore(name: string) {
    name in ALWAYS_IGNORED || HasSuffix(name, ".swp") || ".#" <= name || Contains(name, CONFLICT_MARK)
  }

  /** Which names are always ignored. */
  lemma DefaultIgnoreExact(name: string)
    ensures DefaultIgnore(name) <==>
      || name == ".git" || name == ".svn" || name == ".hg" || name == "node_modules" || name == ".DS_Store"
      || name == "Thumbs.db" || name == ".l2sync-trash" || name == ".l2sync"
      || (exists before :: name == before + ".swp")
      || (exists after :: name == ".#" + after)
      || (exists before, after :: name == before + ".l2sync-conflict-" + after)
  {
    SwapSuffix(name);
    LockPrefix(name);
    MarkInside(name);
  }

  lemma SwapSuffix(name: string)
    ensures HasSuffix(name, ".swp") <==> exists before :: name == before + ".swp"
  {
    if HasSuffix(name, ".swp") {
      assert name == name[..|name| - 4] + ".swp";
    }
    if before :| name == before + ".swp" {
      assert name[|name| - 4..] == ".swp";
    }
  }

  lemma LockPrefix(name: string)
    ensures ".#" <= name <==> exists after :: name == ".#" + after
  {
    if ".#" <= name {
      assert name == ".#" + name[2..];
    }
  }

  lemma MarkInside(name: string)
    ensures Contains(name, CONFLICT_MARK) <==> exists before, after :: name == before + ".l2sync-conflict-" + after
  {
    if Contains(name, CONFLICT_MARK) {
      var i :| 0 <= i <= |name| && CONFLICT_MARK <= name[i..];
      assert name == name[..i] + ".l2sync-conflict-" + name[i + |CONFLICT_MARK|..];
    }
    if before, after :| name == before + ".l2sync-conflict-" + after {
      assert name[|before|..] == CONFLICT_MARK + after;
    }
  }

  predicate SomeDefault(parts: seq<string>) {
    exists i | 0 <= i < |parts| :: DefaultIgnore(parts[i])
  }

  method DefaultIgnorePath(path: string) returns (ignored: bool)
    ensures ignored == SomeDefault(Split(path))
  {
    var parts := Split(path);
    for i := 0 to |parts|
      invariant forall j | 0 <= j < i :: !DefaultIgnore(parts[j])
    {
      if DefaultIgnore(parts[i]) {
        return true;
      }
    }
    ignored := false;
  }

  predicate SomeContains(parts: seq<string>, word: string) {
    exists i | 0 <= i < |parts| :: Contains(parts[i], word)
  }

  lemma ContainsLonger(c: char, s: string, word: string)
    requires Contains(s, word)
    ensures Contains([c] + s, word)
  {
    var k :| 0 <= k <= |s| && word <= s[k..];
    assert ([c] + s)[k + 1..] == s[k..];
  }

  /** A character in front lengthens the first segment or starts a new one. */
  lemma SomeContainsLonger(c: char, s: string, word: string)
    requires SomeContains(Split(s), word)
    ensures SomeContains(Split([c] + s), word)
  {
    assert ([c] + s)[1..] == s;
    var rest, parts := Split(s), Split([c] + s);
    var i :| 0 <= i < |rest| && Contains(rest[i], word);
    if c == '/' {
      assert parts[i + 1] == rest[i];
    } else if i > 0 {
      assert parts[i] == rest[i];
    } else {
      ContainsLonger(c, rest[0], word);
      assert parts[0] == [c] + rest[0];
    }
  }

  lemma {:induction false} WordInSomeSegment(before: string, word: string, after: string)
    requires '/' !in word
    ensures SomeContains(Split(before + word + after), word)
    decreases |before|
  {
    var whole := before + word + after;
    if before == "" {
      WordLeads(word, after);
      assert whole == word + after;
      assert word <= Split(whole)[0][0..];
      assert Contains(Split(whole)[0], word);
    } else {
      WordInSomeSegment(before[1..], word, after);
      SomeContainsLonger(before[0], before[1..] + word + after, word);
      assert whole == [before[0]] + (before[1..] + word + after);
    }
  }

  lemma {:induction false} WordLeads(word: string, after: string)
    requires '/' !in word
    ensures word <= Split(word + after)[0]
  {
    if word != "" {
      assert (word + after)[1..] == word[1..] + after;
      WordLeads(word[1..], after);
    }
  }

  /** Conflict copies are never scanned, listed or planned. */
  lemma ConflictCopiesIgnored(path: string, suffix: string)
    ensures SomeDefault(Split(ConflictName(path, suffix)))
  {
    var cut := |path| - |Extension(path)|;
    WordInSomeSegment(path[..cut], CONFLICT_MARK, suffix + path[cut..]);
    assert path[..cut] + CONFLICT_MARK + (suffix + path[cut..]) == ConflictName(path, suffix);
  }

  /** Whatever lies below a default-ignored path is default-ignored by its own path. */
  lemma DefaultReachesBelow(a: string, p: string)
    requires Ancestor(a, p) && SomeDefault(Split(a))
    ensures SomeDefault(Split(p))
  {
    SplitAtSlash(a, p[|a| + 1..]);
    assert p == a + "/" + p[|a| + 1..];
    var i :| 0 <= i < |Split(a)| && DefaultIgnore(Split(a)[i]);
    assert Split(p)[i] == Split(a)[i];
  }

  lemma SplitAtSlash(a: string, b: string)
    ensures Split(a + "/" + b) == Split(a) + Split(b)
  {
    SplitAtSeparator(a, '/', b);
    assert a + "/" + b == a + ['/'] + b;
  }

  predicate Digits(s: string) {
    s != "" && forall c | c in s :: '0' <= c <= '9'
  }

  lemma TemporaryHasNoMark(random: string)
    requires Digits(random)
    ensures !Contains(TEMPORARY_PREFIX + random, CONFLICT_MARK)
  {
    var name := TEMPORARY_PREFIX + random;
    forall i | 0 <= i <= |name| ensures !(CONFLICT_MARK <= name[i..]) {
      assert |TEMPORARY_PREFIX| <= i < |name| ==> name[i] in random;
      assert 0 < i < |TEMPORARY_PREFIX| ==> name[i] != '.';
      assert name[8] == 'a' && CONFLICT_MARK[8] == 'c';
    }
  }

  lemma NotAlwaysIgnored(name: string)
    requires name != "" && '0' <= name[|name| - 1] <= '9'
    ensures name !in ALWAYS_IGNORED && !HasSuffix(name, ".swp")
  {
  }

  lemma TemporaryNotDefault(random: string)
    requires Digits(random)
    ensures !DefaultIgnore(TEMPORARY_PREFIX + random)
  {
    var name := TEMPORARY_PREFIX + random;
    assert name[|name| - 1] in random && name[1] == 'l';
    TemporaryHasNoMark(random);
    NotAlwaysIgnored(name);
  }

  /** A temporary file left behind is no more ignored than the directory it is in: the next scan takes it for a new
      file. */
  lemma TemporariesNotIgnored(directory: string, random: string)
    requires Digits(random)
    ensures !SomeDefault(Split(TEMPORARY_PREFIX + random))
    ensures SomeDefault(Split(directory + "/" + TEMPORARY_PREFIX + random)) <==> SomeDefault(Split(directory))
  {
    var name := TEMPORARY_PREFIX + random;
    assert forall i | 0 <= i < |random| :: random[i] in random;
    assert '/' !in name;
    NoSlashSplit(name);
    TemporaryNotDefault(random);
    SplitAtSlash(directory, name);
    assert directory + "/" + TEMPORARY_PREFIX + random == directory + "/" + name;
    var parts := Split(directory) + [name];
    assert Split(directory + "/" + name) == parts;
    if i :| 0 <= i < |Split(directory)| && DefaultIgnore(Split(directory)[i]) {
      assert parts[i] == Split(directory)[i];
    }
    if i :| 0 <= i < |parts| && DefaultIgnore(parts[i]) {
      assert i < |Split(directory)| && Split(directory)[i] == parts[i];
    }
  }

  lemma NoSlashSplit(name: string)
    requires '/' !in name
    ensures Split(name) == [name]
  {
    NoSeparatorSplit(name, '/');
  }
}
