/** One line of an ignore file. */
module RuleLines {
  import opened IgnorePatterns
  import opened Paths
  import opened Prelude

  datatype Rule = Rule(pattern: Pattern, negate: bool)

  const BACKSLASH := '\\'

  /** How many backslashes stand directly before position `end`. */
  function Backslashes(s: string, end: nat): (n: nat)
    requires end <= |s|
    ensures n <= end
  {
    if end > 0 && s[end - 1] == BACKSLASH then Backslashes(s, end - 1) + 1 else 0
  }

  /** Drops trailing spaces until one is escaped by an odd number of backslashes. */
  function TrimTrailing(s: string): (t: string)
    ensures t <= s
    ensures forall i | |t| <= i < |s| :: s[i] == ' ' && Backslashes(s, i) % 2 == 0
    ensures t != "" && t[|t| - 1] == ' ' ==> Backslashes(t, |t| - 1) % 2 == 1
  {
    if s == "" || s[|s| - 1] != ' ' || Backslashes(s, |s| - 1) % 2 == 1 then s
    else
      assert forall i | 0 <= i < |s| :: Backslashes(s[..|s| - 1], i) == Backslashes(s, i) by {
        forall i | 0 <= i < |s|
          ensures Backslashes(s[..|s| - 1], i) == Backslashes(s, i)
        {
          BackslashesPrefix(s, |s| - 1, i);
        }
      }
      TrimTrailing(s[..|s| - 1])
  }

  lemma {:induction false} BackslashesPrefix(s: string, n: nat, end: nat)
    requires end <= n <= |s|
    ensures Backslashes(s[..n], end) == Backslashes(s, end)
  {
    if end > 0 {
      BackslashesPrefix(s, n, end - 1);
    }
  }

  lemma TrimStep(s: string, end: nat)
    requires 0 < end <= |s| && s[end - 1] == ' '
    ensures TrimTrailing(s[..end]) == if Backslashes(s, end - 1) % 2 == 1 then s[..end] else TrimTrailing(s[..end - 1])
  {
    BackslashesPrefix(s, end, end - 1);
    assert s[..end][..end - 1] == s[..end - 1];
  }

  method CountBackslashes(s: string, end: nat) returns (backslashes: nat)
    requires end <= |s|
    ensures backslashes == Backslashes(s, end)
  {
    backslashes := 0;
    var j := end - 1;
    while j >= 0 && s[j] == BACKSLASH
      invariant -1 <= j < end
      invariant backslashes == end - 1 - j
      invariant Backslashes(s, end) == backslashes + Backslashes(s, j + 1)
    {
      backslashes := backslashes + 1;
      j := j - 1;
    }
  }

  method TrimTrailingUnescapedSpaces(s: string) returns (t: string)
    ensures t == TrimTrailing(s)
  {
    var end := |s|;
    assert s[..end] == s;
    while end > 0 && s[end - 1] == ' '
      invariant 0 <= end <= |s|
      invariant TrimTrailing(s[..end]) == TrimTrailing(s)
    {
      var backslashes := CountBackslashes(s, end - 1);
      TrimStep(s, end);
      if backslashes % 2 == 1 {
        break;
      }
      end := end - 1;
    }
    t := s[..end];
  }

  /** A backslash stands for the character after it; a last one stands for itself. */
  function Unescape(s: string): string {
    if s == "" then ""
    else if s[0] == BACKSLASH && |s| > 1 then [s[1]] + Unescape(s[2..])
    else [s[0]] + Unescape(s[1..])
  }

  method UnescapeGitignoreLine(s: string) returns (t: string)
    ensures t == Unescape(s)
  {
    t := "";
    var i := 0;
    while i < |s|
      invariant 0 <= i <= |s|
      invariant t + Unescape(s[i..]) == Unescape(s)
    {
      ghost var rest := s[i..];
      if s[i] == BACKSLASH && i + 1 < |s| {
        assert rest[2..] == s[i + 2..];
        i := i + 1;
      } else {
        assert rest[1..] == s[i + 1..];
      }
      t := t + [s[i]];
      i := i + 1;
    }
  }

  predicate Blank(c: char) {
    c == ' ' || '\t' <= c <= '\r'
  }

  function TrimCarriageReturns(s: string): string {
    if s != "" && s[|s| - 1] == '\r' then TrimCarriageReturns(s[..|s| - 1]) else s
  }

  /** The pattern text of a line once comments and negation are dealt with; `clean` is the lexical path cleaner. */
  function RuleFor(text: string, negate: bool, clean: string -> string): (r: Result<Rule>)
    ensures r.Ok? ==> Usable(r.value.pattern)
  {
    if text == "" then Err("empty gitignore pattern")
    else
      var body := TrimSuffixSlash(text);
      var anchored := '/' in body;
      var relative := if body != "" && body[0] == '/' then body[1..] else body;
      if relative == "" then Err("invalid gitignore pattern")
      else Ok(Rule(Pattern(Split(clean(relative)), body != text, !anchored), negate))
  }

  /** No rule for a blank line or a comment. */
  function ParsedLine(raw: string, clean: string -> string): (r: Result<Option<Rule>>)
    ensures r.Ok? && r.value.Some? ==> Usable(r.value.value.pattern)
  {
    var line := TrimCarriageReturns(raw);
    if (forall c | c in line :: Blank(c)) || line[0] == '#' then Ok(None)
    else
      var negate := line[0] == '!';
      match RuleFor(Unescape(TrimTrailing(if negate then line[1..] else line)), negate, clean)
      case Ok(rule) => Ok(Some(rule))
      case Err(reason) => Err(reason)
  }

  method ParseGitignoreLine(raw: string, clean: string -> string) returns (r: Result<Option<Rule>>)
    ensures r == ParsedLine(raw, clean)
  {
    var line := TrimCarriageReturns(raw);
    if (forall c | c in line :: Blank(c)) || line[0] == '#' {
      return Ok(None);
    }
    var negate := false;
    if line[0] == '!' {
      negate := true;
      line := line[1..];
    }
    line := TrimTrailingUnescapedSpaces(line);
    line := UnescapeGitignoreLine(line);
    if line == "" {
      return Err("empty gitignore pattern");
    }
    var directory := line[|line| - 1] == '/';
    if directory {
      line := line[..|line| - 1];
    }
    var anchored := '/' in line;
    if line != "" && line[0] == '/' {
      line := line[1..];
    }
    if line == "" {
      return Err("invalid gitignore pattern");
    }
    r := Ok(Some(Rule(Pattern(Split(clean(line)), directory, !anchored), negate)));
  }

  predicate Special(c: char) {
    c == BACKSLASH || c == ' ' || c == '#' || c == '!'
  }

  /** A name written so that it means itself. */
  function Escape(s: string): string {
    if s == "" then ""
    else Escape(s[..|s| - 1]) + if Special(s[|s| - 1]) then [BACKSLASH, s[|s| - 1]] else [s[|s| - 1]]
  }

  /** Escaped text never reaches into what follows it. */
  lemma {:induction false} UnescapeJoin(s: string, t: string)
    ensures Unescape(Escape(s) + t) == s + Unescape(t)
    decreases |s|
  {
    if s == "" {
      assert Escape(s) + t == t;
    } else {
      var c := s[|s| - 1];
      var piece := if Special(c) then [BACKSLASH, c] else [c];
      assert Escape(s) + t == Escape(s[..|s| - 1]) + (piece + t);
      UnescapeJoin(s[..|s| - 1], piece + t);
      assert Unescape(piece + t) == [c] + Unescape(t) by {
        assert (piece + t)[|piece|..] == t;
      }
      assert s == s[..|s| - 1] + [c];
    }
  }

  /** Before a special character of an escaped text the backslashes are odd in number, elsewhere even. */
  lemma {:induction false} EscapedParity(s: string)
    ensures Backslashes(Escape(s), |Escape(s)|) % 2 == 0
    ensures s != "" && Special(s[|s| - 1]) ==>
      |Escape(s)| > 0 && Escape(s)[|Escape(s)| - 1] == s[|s| - 1] && Backslashes(Escape(s), |Escape(s)| - 1) % 2 == 1
  {
    if s != "" {
      var before, c, e := Escape(s[..|s| - 1]), s[|s| - 1], Escape(s);
      EscapedParity(s[..|s| - 1]);
      assert e[..|before|] == before;
      BackslashesPrefix(e, |before|, |before|);
      assert Special(c) ==> Backslashes(e, |before| + 1) == Backslashes(e, |before|) + 1;
    }
  }

  /** Trimming and unescaping leave an escaped text meaning itself, trailing spaces included. */
  lemma EscapedMeansItself(s: string)
    ensures TrimTrailing(Escape(s)) == Escape(s)
    ensures Unescape(TrimTrailing(Escape(s))) == s
  {
    EscapedParity(s);
    assert s != "" && !Special(s[|s| - 1]) ==> Escape(s)[|Escape(s)| - 1] == s[|s| - 1];
    UnescapeJoin(s, "");
    assert Escape(s) + "" == Escape(s) && s + "" == s;
  }

  lemma {:induction false} EscapedHead(s: string)
    requires s != ""
    ensures Escape(s) != "" && Escape(s)[0] == if Special(s[0]) then BACKSLASH else s[0]
    ensures forall c | c in Escape(s) :: c == BACKSLASH || c in s
  {
    if |s| > 1 {
      EscapedHead(s[..|s| - 1]);
      assert s[..|s| - 1][0] == s[0];
      assert forall c | c in s[..|s| - 1] :: c in s;
    } else {
      assert s[..|s| - 1] == "";
    }
  }

  lemma {:induction false} EscapeJoin(s: string, t: string)
    ensures Escape(s + t) == Escape(s) + Escape(t)
    decreases |t|
  {
    if t == "" {
      assert s + t == s;
    } else {
      var shorter := t[..|t| - 1];
      assert (s + t)[..|s + t| - 1] == s + shorter;
      EscapeJoin(s, shorter);
    }
  }

  /** No line break and no other white space than spaces. */
  predicate OneLine(text: string) {
    text != "" && forall c | c in text :: !('\t' <= c <= '\r')
  }

  /** An escaped text, negated or not, is parsed as the text. */
  lemma EscapedLine(text: string, negate: bool, clean: string -> string)
    requires OneLine(text)
    ensures ParsedLine(if negate then "!" + Escape(text) else Escape(text), clean) ==
      match RuleFor(text, negate, clean)
      case Ok(rule) => Ok(Some(rule))
      case Err(reason) => Err(reason)
  {
    var body := Escape(text);
    var line := if negate then "!" + body else body;
    EscapedHead(text);
    EscapedMeansItself(text);
    assert text[0] in text && body[0] in body && body[|body| - 1] in body;
    assert line[|line| - 1] == body[|body| - 1];
    assert TrimCarriageReturns(line) == line;
    assert line[0] in line && !Blank(line[0]) && line[0] != '#';
    assert negate ==> line[1..] == body;
  }

  /** Every form of a line that is built from an escaped text: a leading "!" negates the rule, a trailing slash limits
      it to directories, and a slash in front or inside anchors it. */
  lemma LineForms(body: string, negate: bool, rooted: bool, directory: bool, clean: string -> string)
    requires OneLine(body) && body[0] != '/' && body[|body| - 1] != '/'
    ensures ParsedLine((if negate then "!" else "") + (if rooted then "/" else "") + Escape(body)
                       + (if directory then "/" else ""), clean) ==
      Ok(Some(Rule(Pattern(Split(clean(body)), directory, !rooted && '/' !in body), negate)))
  {
    var front, back := if rooted then "/" else "", if directory then "/" else "";
    FormedLine(front, body, back, negate, clean);
    EscapeParts(front, body, back);
    SameLine(front, Escape(body), back, negate);
  }

  lemma SameLine(front: string, body: string, back: string, negate: bool)
    ensures (if negate then "!" else "") + front + body + back ==
      if negate then "!" + (front + body + back) else front + body + back
  {
    assert "" + front + body + back == front + body + back;
    assert "!" + front + body + back == "!" + (front + body + back);
  }

  lemma FormedLine(front: string, body: string, back: string, negate: bool, clean: string -> string)
    requires front in {"", "/"} && back in {"", "/"}
    requires OneLine(body) && body[0] != '/' && body[|body| - 1] != '/'
    ensures var text := front + body + back;
      ParsedLine(if negate then "!" + Escape(text) else Escape(text), clean) ==
        Ok(Some(Rule(Pattern(Split(clean(body)), back == "/", front == "" && '/' !in body), negate)))
  {
    OneLineParts(front, body, back);
    EscapedLine(front + body + back, negate, clean);
    FormOf(front, body, back, negate, clean);
  }

  lemma OneLineParts(front: string, body: string, back: string)
    requires front in {"", "/"} && back in {"", "/"} && OneLine(body)
    ensures OneLine(front + body + back)
  {
  }

  lemma EscapeParts(front: string, body: string, back: string)
    requires front in {"", "/"} && back in {"", "/"}
    ensures Escape(front + body + back) == front + Escape(body) + back
  {
    EscapeJoin(front + body, back);
    EscapeJoin(front, body);
    EscapeSlash();
  }

  lemma EscapeSlash()
    ensures Escape("/") == "/" && Escape("") == ""
  {
    assert "/"[..0] == "";
  }

  lemma FormOf(front: string, body: string, back: string, negate: bool, clean: string -> string)
    requires front in {"", "/"} && back in {"", "/"} && body != "" && body[0] != '/' && body[|body| - 1] != '/'
    ensures RuleFor(front + body + back, negate, clean) ==
      Ok(Rule(Pattern(Split(clean(body)), back == "/", front == "" && '/' !in body), negate))
  {
    var text, shown := front + body + back, front + body;
    assert TrimSuffixSlash(text) == shown by {
      if back == "/" {
        assert text[..|text| - 1] == shown;
      } else {
        assert text == shown && shown[|shown| - 1] == body[|body| - 1];
      }
    }
    assert text == shown <==> back == "";
    assert '/' in shown <==> front == "/" || '/' in body;
    if front == "/" {
      assert shown[0] == '/' && shown[1..] == body;
    } else {
      assert shown == body;
    }
  }

  /** A line in front of which a "!" is put is the same rule negated. */
  lemma NegatedLine(line: string, clean: string -> string)
    requires line != "" && line[|line| - 1] != '\r' && !(forall c | c in line :: Blank(c))
    requires line[0] != '#' && line[0] != '!'
    ensures ParsedLine(line, clean).Ok? <==> ParsedLine("!" + line, clean).Ok?
    ensures ParsedLine(line, clean).Ok? ==>
      && ParsedLine(line, clean).value.Some? && !ParsedLine(line, clean).value.value.negate
      && ParsedLine("!" + line, clean).value == Some(ParsedLine(line, clean).value.value.(negate := true))
  {
    var negated := "!" + line;
    assert negated[1..] == line && negated[|negated| - 1] == line[|line| - 1];
    assert TrimCarriageReturns(negated) == negated && TrimCarriageReturns(line) == line;
    assert negated[0] in negated;
  }

  /** Comments and blank lines are no rules, a carriage return at the end changes nothing, and a line with nothing to
      match is an error. */
  lemma NoRuleLines(text: string, clean: string -> string)
    ensures ParsedLine("#" + text, clean) == Ok(None)
    ensures (forall c | c in text :: c == ' ' || '\t' <= c <= '\r') ==> ParsedLine(text, clean) == Ok(None)
    ensures ParsedLine(text + "\r", clean) == ParsedLine(text, clean)
    ensures ParsedLine("!", clean).Err? && ParsedLine("/", clean).Err? && ParsedLine("!/", clean).Err?
  {
    CommentLine(text, clean);
    TrimmedBlank(text);
    ReturnedLine(text, clean);
    TrimmedErrors(clean);
  }

  lemma CommentLine(text: string, clean: string -> string)
    ensures ParsedLine("#" + text, clean) == Ok(None)
  {
    TrimmedHead("#" + text);
  }

  lemma ReturnedLine(text: string, clean: string -> string)
    ensures ParsedLine(text + "\r", clean) == ParsedLine(text, clean)
  {
    assert (text + "\r")[..|text|] == text;
    assert TrimCarriageReturns(text + "\r") == TrimCarriageReturns(text);
  }

  lemma {:induction false} TrimmedHead(line: string)
    requires line != "" && line[0] != '\r'
    ensures TrimCarriageReturns(line) != "" && TrimCarriageReturns(line)[0] == line[0]
  {
    if line[|line| - 1] == '\r' {
      TrimmedHead(line[..|line| - 1]);
    }
  }

  lemma {:induction false} TrimmedBlank(line: string)
    ensures forall c | c in TrimCarriageReturns(line) :: c in line
  {
    if line != "" && line[|line| - 1] == '\r' {
      TrimmedBlank(line[..|line| - 1]);
    }
  }

  lemma TrimmedErrors(clean: string -> string)
    ensures ParsedLine("!", clean).Err? && ParsedLine("/", clean).Err? && ParsedLine("!/", clean).Err?
  {
    assert "!"[1..] == "" && "!/"[1..] == "/" && "/"[..0] == "";
    assert '!' in "!" && '/' in "/" && '!' in "!/";
    assert TrimTrailing("") == "" && Unescape("") == "" && TrimTrailing("/") == "/" && Unescape("/") == "/";
    assert TrimSuffixSlash("/") == "";
  }

  /** The line that escapes a name is an any-depth rule whose one pattern is that name; glob characters in it stay
      patterns. */
  lemma EscapedNameRule(name: string, clean: string -> string)
    requires OneLine(name) && '/' !in name
    ensures ParsedLine(Escape(name), clean) == Ok(Some(Rule(Pattern(Split(clean(name)), false, true), false)))
  {
    assert name[0] in name && name[|name| - 1] in name;
    LineForms(name, false, false, false, clean);
    assert "" + "" + Escape(name) + "" == Escape(name);
  }

  /** Where the name is its own pattern, that rule ignores exactly the paths with such a segment. */
  lemma EscapedNameMatches(name: string, clean: string -> string, segment: Segment, parts: seq<string>)
    requires OneLine(name) && '/' !in name
    requires clean(name) == name && forall part :: segment(name, part) <==> part == name
    ensures var rule := ParsedLine(Escape(name), clean);
      rule.Ok? && rule.value.Some? && (PatternMatches(segment, rule.value.value.pattern, parts) <==> name in parts)
  {
    EscapedNameRule(name, clean);
    NoSlashSplit(name);
  }
}

/** Matching against every ignore file on the way to a path. */
module GitIgnoreRules {
  import opened IgnorePatterns
  import opened Paths
  import opened Prelude
  import opened RuleLines

  datatype IgnoreFile = Missing | Unreadable | Contents(text: string)

  /** A rule as it applies to a path: with the path's segments below the rule's directory. */
  datatype Scoped = Scoped(rule: Rule, parts: seq<string>)

  predicate Applies(segment: Segment, s: Scoped, isDir: bool) {
    Usable(s.rule.pattern) && (s.rule.pattern.directory ==> isDir) && PatternMatches(segment, s.rule.pattern, s.parts)
  }

  /** The last rule that applies decides; without one nothing is ignored. */
  function LastVerdict(segment: Segment, rules: seq<Scoped>, isDir: bool, otherwise: bool): (ignored: bool)
    ensures ignored <==>
      (exists i | 0 <= i < |rules| :: Applies(segment, rules[i], isDir) && !rules[i].rule.negate
                                   && forall j | i < j < |rules| :: !Applies(segment, rules[j], isDir))
      || (otherwise && forall j | 0 <= j < |rules| :: !Applies(segment, rules[j], isDir))
  {
    if rules == [] then otherwise
    else
      var last := rules[|rules| - 1];
      if Applies(segment, last, isDir) then !last.rule.negate
      else LastVerdict(segment, rules[..|rules| - 1], isDir, otherwise)
  }

  function ParsedLines(lines: seq<string>, clean: string -> string): Result<seq<Rule>> {
    if lines == [] then Ok([])
    else match ParsedLines(lines[..|lines| - 1], clean)
      case Err(reason) => Err(reason)
      case Ok(rules) =>
        match ParsedLine(lines[|lines| - 1], clean)
        case Err(reason) => Err(reason)
        case Ok(rule) => Ok(if rule.Some? then rules + [rule.value] else rules)
  }

  /** The rules of one directory's ignore file; no file, no rules. */
  function RulesIn(file: IgnoreFile, clean: string -> string): Result<seq<Rule>> {
    match file
    case Missing => Ok([])
    case Unreadable => Err("read ignore file")
    case Contents(text) => ParsedLines(SplitOn(text, '\n'), clean)
  }

  /** The root, then every directory down to and including `dir`. */
  function AncestorsOf(dir: string): seq<string> {
    if dir == "" then [""]
    else match Dir(dir)
      case None => ["", dir]
      case Some(parent) => if parent == "" then ["", dir] else AncestorsOf(parent) + [dir]
  }

  lemma {:induction false} AncestorsExact(dir: string)
    requires dir == "" || dir[0] != '/'
    ensures forall a :: a in AncestorsOf(dir) <==> a == "" || a == dir || Ancestor(a, dir)
  {
    if dir != "" && Dir(dir).Some? {
      AncestorsExact(Dir(dir).value);
    }
  }

  /** They come in order, from the root down: each stands above the next. */
  lemma {:induction false} AncestorsInOrder(dir: string, i: nat, j: nat)
    requires (dir == "" || dir[0] != '/') && i < j < |AncestorsOf(dir)|
    ensures AncestorsOf(dir)[i] == "" || Ancestor(AncestorsOf(dir)[i], AncestorsOf(dir)[j])
    ensures AncestorsOf(dir)[j] != ""
  {
    if dir != "" && Dir(dir).Some? && Dir(dir).value != "" {
      var parent := Dir(dir).value;
      var above := AncestorsOf(parent);
      AncestorsExact(parent);
      if j < |above| {
        AncestorsInOrder(parent, i, j);
      } else {
        assert above[i] in above;
      }
    }
  }

  /** What `relative` looks like from the directory `ancestor`. */
  function ScopedPath(relative: string, ancestor: string): string {
    if ancestor != "" && ancestor + "/" <= relative then relative[|ancestor| + 1..] else relative
  }

  function ScopedTo(rules: seq<Rule>, parts: seq<string>): (scoped: seq<Scoped>)
    ensures |scoped| == |rules| && forall i | 0 <= i < |rules| :: scoped[i] == Scoped(rules[i], parts)
  {
    seq(|rules|, i requires 0 <= i < |rules| => Scoped(rules[i], parts))
  }

  /** The rule lists of the given directories one after the other, each scoped to its directory. */
  function AllRules(directories: seq<string>, files: string -> IgnoreFile, clean: string -> string,
                    relative: string): Result<seq<Scoped>> {
    if directories == [] then Ok([])
    else
      var last := directories[|directories| - 1];
      match AllRules(directories[..|directories| - 1], files, clean, relative)
      case Err(reason) => Err(reason)
      case Ok(before) =>
        match RulesIn(files(last), clean)
        case Err(reason) => Err(reason)
        case Ok(rules) => Ok(before + ScopedTo(rules, Split(ScopedPath(relative, last))))
  }

  /** The directory a path is in, cleaned, the root as the empty path. */
  function Holder(relative: string, clean: string -> string): string {
    match Dir(relative)
    case None => ""
    case Some(directory) =>
      var cleaned := clean(directory + "/");
      if cleaned == "." then "" else cleaned
  }

  /** Cleaning a relative path leaves no empty segment. */
  ghost predicate Cleans(clean: string -> string) {
    forall s | s != "" && s[0] != '/' :: Segmented(clean(s))
  }

  /** No segment of the path is empty. */
  predicate Segmented(path: string) {
    path == "" || forall part | part in Split(path) :: part != ""
  }

  /** The verdict on a path: the last applicable rule of all the ignore files from the root down to the path's
      directory. */
  function Verdict(segment: Segment, files: string -> IgnoreFile, clean: string -> string, relative: string,
                   isDir: bool): Result<bool> {
    match AllRules(AncestorsOf(Holder(relative, clean)), files, clean, relative)
    case Err(reason) => Err(reason)
    case Ok(rules) => Ok(LastVerdict(segment, rules, isDir, false))
  }

  class GitIgnore {
    const disabled: bool
    const segment: Segment
    const clean: string -> string
    const files: string -> IgnoreFile
    var cache: map<string, seq<Rule>>

    constructor (disabled: bool, segment: Segment, clean: string -> string, files: string -> IgnoreFile)
      requires Cleans(clean)
      ensures Valid() && this.disabled == disabled && this.segment == segment && this.clean == clean
      ensures this.files == files
    {
      this.disabled, this.segment, this.clean, this.files, this.cache := disabled, segment, clean, files, map[];
    }

    /** Every cached list is what its ignore file says. */
    ghost predicate Valid()
      reads this`cache
    {
      Cleans(clean) && forall d | d in cache :: RulesIn(files(d), clean) == Ok(cache[d])
    }

    /** Matching through the cache is the verdict on the files themselves. */
    method Match(path: string, isDir: bool) returns (r: Result<bool>)
      requires Valid()
      modifies this`cache
      ensures Valid() && old(cache).Keys <= cache.Keys
      ensures disabled || TrimSlashes(path) == "" ==> r == Ok(false)
      ensures !disabled && TrimSlashes(path) != "" ==> r == Verdict(segment, files, clean, TrimSlashes(path), isDir)
    {
      if disabled {
        return Ok(false);
      }
      var relative := TrimSlashes(path);
      if relative == "" {
        return Ok(false);
      }
      var dir := Holder(relative, clean);
      HolderSegments(path, clean);
      var ancestors := AncestorDirs(dir);
      var matched := false;
      ghost var sofar: seq<Scoped> := [];
      assert ancestors[..0] == [];
      for i := 0 to |ancestors|
        invariant Valid() && old(cache).Keys <= cache.Keys
        invariant AllRules(ancestors[..i], files, clean, relative) == Ok(sofar)
        invariant matched == LastVerdict(segment, sofar, isDir, false)
      {
        var rules := RulesFor(ancestors[i]);
        if rules.Err? {
          RulesFail(ancestors, i, files, clean, relative);
          return Err(rules.reason);
        }
        var parts := Split(ScopedPath(relative, ancestors[i]));
        matched := ApplyRules(rules.value, parts, isDir, matched);
        RulesExtend(ancestors, i, files, clean, relative, sofar);
        VerdictAppend(segment, sofar, ScopedTo(rules.value, parts), isDir);
        sofar := sofar + ScopedTo(rules.value, parts);
      }
      assert ancestors[..|ancestors|] == ancestors;
      r := Ok(matched);
    }

    /** Overwrites the verdict with that of every rule that matches, in order. */
    method ApplyRules(rules: seq<Rule>, parts: seq<string>, isDir: bool, before: bool) returns (matched: bool)
      requires forall rule | rule in rules :: Usable(rule.pattern)
      ensures matched == LastVerdict(segment, ScopedTo(rules, parts), isDir, before)
    {
      matched := before;
      for i := 0 to |rules|
        invariant matched == LastVerdict(segment, ScopedTo(rules[..i], parts), isDir, before)
      {
        var rule := rules[i];
        VerdictStep(segment, rules, parts, isDir, before, i);
        if !rule.pattern.directory || isDir {
          var m := MatchPatternParts(segment, rule.pattern, parts);
          if m {
            matched := !rule.negate;
          }
        }
      }
      assert rules[..|rules|] == rules;
    }

    /** Reads a directory's rules once. */
    method RulesFor(dir: string) returns (r: Result<seq<Rule>>)
      requires Valid()
      modifies this`cache
      ensures Valid() && old(cache).Keys <= cache.Keys
      ensures r == RulesIn(files(dir), clean)
      ensures r.Ok? ==> forall rule | rule in r.value :: Usable(rule.pattern)
    {
      RulesUsable(files(dir), clean);
      if dir in cache {
        return Ok(cache[dir]);
      }
      match files(dir) {
        case Missing =>
          cache := cache[dir := []];
          return Ok([]);
        case Unreadable =>
          return Err("read ignore file");
        case Contents(text) =>
          r := ParseLines(SplitOn(text, '\n'), clean);
          if r.Ok? {
            cache := cache[dir := r.value];
          }
      }
    }
  }

  method ParseLines(lines: seq<string>, clean: string -> string) returns (r: Result<seq<Rule>>)
    ensures r == ParsedLines(lines, clean)
  {
    var rules: seq<Rule> := [];
    for i := 0 to |lines|
      invariant ParsedLines(lines[..i], clean) == Ok(rules)
    {
      assert lines[..i + 1][..i] == lines[..i];
      var parsed := ParseGitignoreLine(lines[i], clean);
      if parsed.Err? {
        ParseFails(lines, i, clean);
        return Err(parsed.reason);
      }
      if parsed.value.Some? {
        rules := rules + [parsed.value.value];
      }
    }
    assert lines[..|lines|] == lines;
    r := Ok(rules);
  }

  lemma {:induction false} ParseFails(lines: seq<string>, n: nat, clean: string -> string)
    requires n < |lines| && ParsedLines(lines[..n + 1], clean).Err?
    ensures ParsedLines(lines, clean) == ParsedLines(lines[..n + 1], clean)
    decreases |lines|
  {
    if n + 1 < |lines| {
      var shorter := lines[..|lines| - 1];
      assert shorter[..n + 1] == lines[..n + 1];
      ParseFails(shorter, n, clean);
    } else {
      assert lines[..n + 1] == lines;
    }
  }

  lemma {:induction false} ParsedUsable(lines: seq<string>, clean: string -> string)
    ensures ParsedLines(lines, clean).Ok? ==>
      forall rule | rule in ParsedLines(lines, clean).value :: Usable(rule.pattern)
  {
    if lines != [] {
      ParsedUsable(lines[..|lines| - 1], clean);
    }
  }

  lemma RulesUsable(file: IgnoreFile, clean: string -> string)
    ensures RulesIn(file, clean).Ok? ==> forall rule | rule in RulesIn(file, clean).value :: Usable(rule.pattern)
  {
    if file.Contents? {
      ParsedUsable(SplitOn(file.text, '\n'), clean);
    }
  }

  /** Without any ignore file nothing is ignored; one that cannot be read makes every path below it an error. */
  lemma FilesDecide(segment: Segment, files: string -> IgnoreFile, clean: string -> string, relative: string,
                    isDir: bool)
    ensures (forall d | d in AncestorsOf(Holder(relative, clean)) :: files(d).Missing?) ==>
      Verdict(segment, files, clean, relative, isDir) == Ok(false)
    ensures (exists d :: d in AncestorsOf(Holder(relative, clean)) && files(d).Unreadable?) ==>
      Verdict(segment, files, clean, relative, isDir).Err?
  {
    var dirs := AncestorsOf(Holder(relative, clean));
    if forall d | d in dirs :: files(d).Missing? {
      MissingFiles(dirs, files, clean, relative);
    }
    if d :| d in dirs && files(d).Unreadable? {
      var n :| 0 <= n < |dirs| && dirs[n] == d;
      UnreadableFile(dirs, n, files, clean, relative);
    }
  }

  lemma {:induction false} MissingFiles(dirs: seq<string>, files: string -> IgnoreFile, clean: string -> string,
                                        relative: string)
    requires forall d | d in dirs :: files(d).Missing?
    ensures AllRules(dirs, files, clean, relative) == Ok([])
  {
    if dirs != [] {
      MissingFiles(dirs[..|dirs| - 1], files, clean, relative);
      assert dirs[|dirs| - 1] in dirs;
      var before: seq<Scoped> := [];
      assert before + ScopedTo([], Split(ScopedPath(relative, dirs[|dirs| - 1]))) == [];
    }
  }

  lemma {:induction false} UnreadableFile(dirs: seq<string>, n: nat, files: string -> IgnoreFile,
                                          clean: string -> string, relative: string)
    requires n < |dirs| && files(dirs[n]).Unreadable?
    ensures AllRules(dirs, files, clean, relative).Err?
  {
    if n < |dirs| - 1 {
      assert dirs[..|dirs| - 1][n] == dirs[n];
      UnreadableFile(dirs[..|dirs| - 1], n, files, clean, relative);
    }
  }

  lemma {:induction false} RulesFail(directories: seq<string>, n: nat, files: string -> IgnoreFile,
                                     clean: string -> string, relative: string)
    requires n < |directories| && AllRules(directories[..n], files, clean, relative).Ok?
    requires RulesIn(files(directories[n]), clean).Err?
    ensures AllRules(directories, files, clean, relative) == Err(RulesIn(files(directories[n]), clean).reason)
    decreases |directories|
  {
    if n + 1 < |directories| {
      var shorter := directories[..|directories| - 1];
      assert shorter[..n] == directories[..n];
      RulesFail(shorter, n, files, clean, relative);
    }
  }

  lemma VerdictStep(segment: Segment, rules: seq<Rule>, parts: seq<string>, isDir: bool, otherwise: bool, n: nat)
    requires n < |rules|
    ensures LastVerdict(segment, ScopedTo(rules[..n + 1], parts), isDir, otherwise) ==
      if Applies(segment, Scoped(rules[n], parts), isDir) then !rules[n].negate
      else LastVerdict(segment, ScopedTo(rules[..n], parts), isDir, otherwise)
  {
    var done, more := ScopedTo(rules[..n], parts), ScopedTo(rules[..n + 1], parts);
    assert more[..n] == done && more[n] == Scoped(rules[n], parts);
  }

  lemma RulesExtend(directories: seq<string>, n: nat, files: string -> IgnoreFile, clean: string -> string,
                    relative: string, sofar: seq<Scoped>)
    requires n < |directories| && RulesIn(files(directories[n]), clean).Ok?
    requires AllRules(directories[..n], files, clean, relative) == Ok(sofar)
    ensures AllRules(directories[..n + 1], files, clean, relative) ==
      Ok(sofar + ScopedTo(RulesIn(files(directories[n]), clean).value, Split(ScopedPath(relative, directories[n]))))
  {
    assert directories[..n + 1][..n] == directories[..n];
  }

  /** A rule for directories says nothing about a file; an anchored rule of one name takes exactly that one segment. */
  lemma DirectoryRuleSparesFiles(segment: Segment, rules: seq<Scoped>, last: Scoped, otherwise: bool)
    requires last.rule.pattern.directory
    ensures LastVerdict(segment, rules + [last], false, otherwise) == LastVerdict(segment, rules, false, otherwise)
  {
    assert (rules + [last])[..|rules|] == rules;
  }

  lemma AnchoredName(segment: Segment, name: string, directory: bool, negate: bool, parts: seq<string>, isDir: bool)
    requires name != ANY_RUN
    ensures Applies(segment, Scoped(Rule(Pattern([name], directory, false), negate), parts), isDir) <==>
      (directory ==> isDir) && |parts| == 1 && segment(name, parts[0])
  {
    OneSegment(segment, name, parts);
  }

  lemma OneSegment(segment: Segment, name: string, parts: seq<string>)
    requires name != ANY_RUN
    ensures MatchParts(segment, [name], parts) <==> |parts| == 1 && segment(name, parts[0])
  {
    assert [name][1..] == [];
    assert parts != [] ==> (MatchParts(segment, [], parts[1..]) <==> parts[1..] == []);
  }

  /** Overwriting verdicts list by list is the verdict of the concatenation. */
  lemma {:induction false} VerdictAppend(segment: Segment, s: seq<Scoped>, t: seq<Scoped>, isDir: bool)
    ensures LastVerdict(segment, s + t, isDir, false) ==
      LastVerdict(segment, t, isDir, LastVerdict(segment, s, isDir, false))
    decreases |t|
  {
    if t == [] {
      assert s + t == s;
    } else {
      var shorter := t[..|t| - 1];
      assert (s + t)[..|s + t| - 1] == s + shorter;
      VerdictAppend(segment, s, shorter, isDir);
    }
  }

  lemma {:induction false} TrimmedStart(path: string)
    ensures TrimSlashes(path) != "" ==> TrimSlashes(path)[0] != '/'
    decreases |path|
  {
    if path != "" && path[0] == '/' {
      TrimmedStart(path[1..]);
    } else if path != "" && path[|path| - 1] == '/' {
      TrimmedStart(path[..|path| - 1]);
    }
  }

  lemma HolderSegments(path: string, clean: string -> string)
    requires Cleans(clean)
    ensures Segmented(Holder(TrimSlashes(path), clean))
  {
    var relative := TrimSlashes(path);
    TrimmedStart(path);
    if Dir(relative).Some? {
      var directory := Dir(relative).value + "/";
      assert directory[0] == relative[0];
      assert Segmented(clean(directory));
    }
  }

  function Below(dir: string, name: string): string {
    if dir == "" then name else dir + "/" + name
  }

  /** Whatever the other rules say, the last line of the directory's own ignore file decides about a name it escapes:
      with a "!" in front the path is not ignored, without one it is. */
  lemma LastLineDecides(segment: Segment, files: string -> IgnoreFile, clean: string -> string, dir: string,
                        name: string, before: string, negate: bool, directory: bool, isDir: bool)
    requires OneLine(name) && '/' !in name && clean(name) == name && segment(name, name)
    requires dir != "" ==> Segmented(dir) && clean(dir + "/") == dir && dir != "."
    requires directory ==> isDir
    requires files(dir) == Contents(before + "\n" + (if negate then "!" else "") + Escape(name)
                                    + (if directory then "/" else ""))
    ensures TrimSlashes(Below(dir, name)) == Below(dir, name)
    ensures Verdict(segment, files, clean, Below(dir, name), isDir).Ok? ==>
      Verdict(segment, files, clean, Below(dir, name), isDir).value == !negate
  {
    var line := NameLine(name, negate, directory, clean);
    assert files(dir) == Contents(before + "\n" + line) by {
      LineInText(before, if negate then "!" else "", Escape(name), if directory then "/" else "");
    }
    var rule := Rule(Pattern([name], directory, true), negate);
    LastRule(before, line, rule, clean);
    HolderOfName(dir, name, clean);
    LastDirectory(dir);
    NoSlashSplit(name);
    LastRuleDecides(segment, files, clean, AncestorsOf(dir), Below(dir, name), rule, name, isDir);
    TrimmedName(dir, name);
  }

  lemma LastRuleDecides(segment: Segment, files: string -> IgnoreFile, clean: string -> string, dirs: seq<string>,
                        relative: string, rule: Rule, name: string, isDir: bool)
    requires dirs != [] && Split(ScopedPath(relative, dirs[|dirs| - 1])) == [name] && segment(name, name)
    requires rule.pattern.parts == [name] && rule.pattern.anySegment && (rule.pattern.directory ==> isDir)
    requires EndsWith(RulesIn(files(dirs[|dirs| - 1]), clean), rule)
    ensures var all := AllRules(dirs, files, clean, relative);
      all.Ok? ==> LastVerdict(segment, all.value, isDir, false) == !rule.negate
  {
    var all := AllRules(dirs, files, clean, relative);
    if all.Ok? {
      LastScoped(files, clean, dirs, relative, rule, [name]);
      LastDecides(segment, all.value, rule, name, isDir);
    }
  }

  lemma LineInText(before: string, front: string, body: string, back: string)
    ensures before + "\n" + front + body + back == before + "\n" + (front + body + back)
  {
  }

  lemma LastDecides(segment: Segment, rules: seq<Scoped>, rule: Rule, name: string, isDir: bool)
    requires rules != [] && rules[|rules| - 1] == Scoped(rule, [name])
    requires rule.pattern.parts == [name] && rule.pattern.anySegment && (rule.pattern.directory ==> isDir)
    requires segment(name, name)
    ensures LastVerdict(segment, rules, isDir, false) == !rule.negate
  {
    assert segment(rule.pattern.parts[0], [name][0]);
  }

  /** The line in one piece: its rule, and that it is one line. */
  lemma NameLine(name: string, negate: bool, directory: bool, clean: string -> string) returns (line: string)
    requires OneLine(name) && '/' !in name && clean(name) == name
    ensures line == (if negate then "!" else "") + Escape(name) + (if directory then "/" else "")
    ensures '\n' !in line
    ensures ParsedLine(line, clean) == Ok(Some(Rule(Pattern([name], directory, true), negate)))
  {
    line := (if negate then "!" else "") + Escape(name) + (if directory then "/" else "");
    assert name[0] in name && name[|name| - 1] in name;
    LineForms(name, negate, false, directory, clean);
    EscapedHead(name);
    NoSlashSplit(name);
    NothingBetween(if negate then "!" else "", Escape(name), if directory then "/" else "");
    NoBreak(if negate then "!" else "", Escape(name), if directory then "/" else "");
  }

  lemma NothingBetween(front: string, body: string, back: string)
    ensures front + "" + body + back == front + body + back
  {
    assert front + "" == front;
  }

  lemma NoBreak(front: string, body: string, back: string)
    requires front in {"", "!"} && back in {"", "/"} && '\n' !in body
    ensures '\n' !in front + body + back
  {
  }

  lemma LastRule(before: string, line: string, rule: Rule, clean: string -> string)
    requires '\n' !in line && ParsedLine(line, clean) == Ok(Some(rule))
    ensures EndsWith(RulesIn(Contents(before + "\n" + line), clean), rule)
  {
    SplitAtSeparator(before, '\n', line);
    NoSeparatorSplit(line, '\n');
    assert before + "\n" + line == before + ['\n'] + line;
    var lines := SplitOn(before + "\n" + line, '\n');
    assert lines[..|lines| - 1] == SplitOn(before, '\n') && lines[|lines| - 1] == line;
  }

  lemma HolderOfName(dir: string, name: string, clean: string -> string)
    requires name != "" && '/' !in name
    requires dir != "" ==> clean(dir + "/") == dir && dir != "."
    ensures Holder(Below(dir, name), clean) == dir
    ensures ScopedPath(Below(dir, name), dir) == name
  {
    if dir == "" {
      NoSlashDir(name);
    } else {
      DirOfJoined(dir, name);
      assert (dir + "/" + name)[|dir| + 1..] == name;
    }
  }

  lemma LastDirectory(dir: string)
    ensures var dirs := AncestorsOf(dir); dirs != [] && dirs[|dirs| - 1] == dir
  {
  }

  lemma LastScoped(files: string -> IgnoreFile, clean: string -> string, dirs: seq<string>, relative: string,
                   rule: Rule, parts: seq<string>)
    requires dirs != [] && parts == Split(ScopedPath(relative, dirs[|dirs| - 1]))
    requires EndsWith(RulesIn(files(dirs[|dirs| - 1]), clean), rule)
    ensures var all := AllRules(dirs, files, clean, relative);
      all.Ok? ==> all.value != [] && all.value[|all.value| - 1] == Scoped(rule, parts)
  {
    var last := dirs[|dirs| - 1];
    var before, rules := AllRules(dirs[..|dirs| - 1], files, clean, relative), RulesIn(files(last), clean);
    if before.Ok? && rules.Ok? {
      ScopedEndsWith(before.value, rules.value, parts, rule);
    }
  }

  lemma ScopedEndsWith(before: seq<Scoped>, rules: seq<Rule>, parts: seq<string>, rule: Rule)
    requires rules != [] && rules[|rules| - 1] == rule
    ensures var all := before + ScopedTo(rules, parts); all != [] && all[|all| - 1] == Scoped(rule, parts)
  {
  }

  predicate EndsWith(rules: Result<seq<Rule>>, rule: Rule) {
    rules.Ok? ==> rules.value != [] && rules.value[|rules.value| - 1] == rule
  }

  lemma TrimmedName(dir: string, name: string)
    requires name != "" && '/' !in name && (dir != "" ==> Segmented(dir))
    ensures TrimSlashes(Below(dir, name)) == Below(dir, name)
  {
    var path := Below(dir, name);
    assert name[|name| - 1] in name && name[0] in name;
    assert path[|path| - 1] == name[|name| - 1];
    if dir != "" {
      assert Split(dir)[0] in Split(dir);
    }
  }

  /** Accumulates the path segment by segment. */
  method AncestorDirs(dir: string) returns (dirs: seq<string>)
    requires Segmented(dir)
    ensures dirs == AncestorsOf(dir)
  {
    if dir == "" {
      return [""];
    }
    var segments := Split(dir);
    dirs := [""];
    var accumulated := "";
    for i := 0 to |segments|
      invariant i == 0 ==> accumulated == ""
      invariant i > 0 ==> accumulated == Join(segments[..i]) && accumulated != ""
      invariant dirs == AncestorsOf(accumulated)
    {
      ghost var before := accumulated;
      assert segments[i] in segments;
      if accumulated == "" {
        accumulated := segments[i];
        NoSlashDir(segments[i]);
      } else {
        accumulated := accumulated + "/" + segments[i];
        DirOfJoined(before, segments[i]);
        assert segments[..i + 1][..i] == segments[..i];
      }
      dirs := dirs + [accumulated];
    }
    assert segments[..|segments|] == segments;
    JoinSplit(dir);
  }

  lemma NoSlashDir(segment: string)
    requires '/' !in segment
    ensures Dir(segment).None?
  {
  }

  lemma DirOfJoined(before: string, segment: string)
    requires '/' !in segment
    ensures Dir(before + "/" + segment) == Some(before)
  {
    var whole := before + "/" + segment;
    assert whole[..|before|] == before;
    assert Ancestor(before, whole);
    assert forall i | |before| < i < |whole| :: whole[i] in segment;
  }
}
