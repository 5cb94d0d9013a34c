/** Cache policies: the parser that turns the lines of a policy file into an
    ordered list of (pattern, TTL) pairs ending in a catch-all default, and the
    first-match resolver that maps a URL to its TTL.

    Regular expressions and Go's duration syntax are outside the model. A
    policy keeps its pattern's source text; whether a pattern compiles is the
    parameter `compiles`, whether a compiled pattern matches a URL somewhere
    inside it is the parameter `matches`, and time.ParseDuration is the partial
    function `parse`. */
module Policies {
  import opened Wrappers
  import opened Text

  /** time.Duration: a signed count of nanoseconds. */
  type Duration = int

  const Second: Duration := 1_000_000_000
  const Minute: Duration := 60 * Second

  datatype Policy = Policy(pattern: string, ttl: Duration)

  /** The catch-all policy every loaded list ends with. */
  const DefaultPattern: string := ".*"
  const DefaultPolicy: Policy := Policy(DefaultPattern, 10 * Minute)

  /** Where the policies come from: no file name configured, a file that does
      not exist, one that exists but cannot be opened, or the lines a scanner
      delivers from it, followed by a read error when `readFails`. */
  datatype PolicySource =
    | NoFileName
    | FileMissing
    | OpenFailed
    | FileLines(lines: seq<string>, readFails: bool)

  datatype LoadError =
    | CannotOpen
    | InvalidFormat(line: string)
    | InvalidPattern(pattern: string)
    | InvalidDuration(duration: string)
    | CannotRead

  /** What one raw line of the file is: blank or a whole-line comment, a rule
      split into pattern and duration text, or a rule without a separator. */
  datatype LineKind =
    | Blank
    | Rule(pattern: string, duration: string)
    | NoSeparator(line: string)

  /** The line rules: trim; skip empty and `#` lines; drop everything from the
      first `#` on; split at the last `=` and trim both halves. */
  function ClassifyLine(raw: string): LineKind
  {
    var line := TrimSpace(raw);
    if line == [] || line[0] == '#' then Blank
    else
      var hash := IndexOf(line, '#');
      var body := if hash == -1 then line else TrimSpace(line[..hash]);
      var eq := LastIndexOf(body, '=');
      if eq == -1 then NoSeparator(body)
      else Rule(TrimSpace(body[..eq]), TrimSpace(body[eq + 1..]))
  }

  /** The policy one line contributes (None for a blank line) or the error it
      aborts the load with. */
  function LinePolicy(raw: string, compiles: string -> bool, parse: string -> Option<Duration>)
    : Result<Option<Policy>, LoadError>
  {
    match ClassifyLine(raw)
    case Blank => Ok(None)
    case NoSeparator(line) => Err(InvalidFormat(line))
    case Rule(pattern, duration) =>
      if !compiles(pattern) then Err(InvalidPattern(pattern))
      else match parse(duration)
        case None => Err(InvalidDuration(duration))
        case Some(ttl) => Ok(Some(Policy(pattern, ttl)))
  }

  /** The scanner loop over `lines`, line by line: the policies so far, or the
      error of the first line that fails. */
  function LoadLines(lines: seq<string>, compiles: string -> bool, parse: string -> Option<Duration>)
    : Result<seq<Policy>, LoadError>
  {
    if lines == [] then Ok([])
    else
      match LoadLines(lines[..|lines| - 1], compiles, parse)
      case Err(e) => Err(e)
      case Ok(policies) =>
        match LinePolicy(lines[|lines| - 1], compiles, parse)
        case Err(e) => Err(e)
        case Ok(None) => Ok(policies)
        case Ok(Some(p)) => Ok(policies + [p])
  }

  /** loadPoliciesFromFile as a function of the policy source. */
  function Load(source: PolicySource, compiles: string -> bool, parse: string -> Option<Duration>)
    : Result<seq<Policy>, LoadError>
  {
    match source
    case NoFileName => Ok([DefaultPolicy])
    case FileMissing => Ok([DefaultPolicy])
    case OpenFailed => Err(CannotOpen)
    case FileLines(lines, readFails) =>
      match LoadLines(lines, compiles, parse)
      case Err(e) => Err(e)
      case Ok(policies) => if readFails then Err(CannotRead) else Ok(policies + [DefaultPolicy])
  }

  /** The parser's loop: one pass over the lines, appending each accepted
      policy and returning at the first bad line. */
  method LoadPoliciesFromFile(source: PolicySource, compiles: string -> bool, parse: string -> Option<Duration>)
    returns (r: Result<seq<Policy>, LoadError>)
    ensures r == Load(source, compiles, parse)
  {
    match source {
      case NoFileName => return Ok([DefaultPolicy]);
      case FileMissing => return Ok([DefaultPolicy]);
      case OpenFailed => return Err(CannotOpen);
      case FileLines(lines, readFails) =>
        var policies: seq<Policy> := [];
        var i := 0;
        while i < |lines|
          invariant 0 <= i <= |lines|
          invariant LoadLines(lines[..i], compiles, parse) == Ok(policies)
        {
          LoadLinesStep(lines, i, policies, compiles, parse);
          var step := ScanLine(lines[i], compiles, parse);
          match step {
            case Err(e) =>
              ErrorPersists(lines, i + 1, compiles, parse);
              return Err(e);
            case Ok(None) =>
            case Ok(Some(p)) =>
              policies := policies + [p];
          }
          i := i + 1;
        }
        assert lines[..i] == lines;
        if readFails {
          return Err(CannotRead);
        }
        policies := policies + [DefaultPolicy];
        return Ok(policies);
    }
  }

  /** The body of the scanner loop for one line: the line rules applied in
      order, then compilation of the pattern and parsing of the duration. */
  method ScanLine(raw: string, compiles: string -> bool, parse: string -> Option<Duration>)
    returns (r: Result<Option<Policy>, LoadError>)
    ensures r == LinePolicy(raw, compiles, parse)
  {
    var line := TrimSpace(raw);
    if line == [] || line[0] == '#' {
      assert ClassifyLine(raw) == Blank;
      return Ok(None);
    }
    var hash := IndexOf(line, '#');
    if hash != -1 {
      line := TrimSpace(line[..hash]);
    }
    var eq := LastIndexOf(line, '=');
    if eq == -1 {
      assert ClassifyLine(raw) == NoSeparator(line);
      return Err(InvalidFormat(line));
    }
    var pattern := TrimSpace(line[..eq]);
    var duration := TrimSpace(line[eq + 1..]);
    assert ClassifyLine(raw) == Rule(pattern, duration);
    if !compiles(pattern) {
      return Err(InvalidPattern(pattern));
    }
    var ttl := parse(duration);
    if ttl.None? {
      return Err(InvalidDuration(duration));
    }
    return Ok(Some(Policy(pattern, ttl.value)));
  }

  /** Once a prefix of the lines fails, the whole file fails with that error. */
  lemma {:induction false} ErrorPersists(lines: seq<string>, k: nat, compiles: string -> bool, parse: string -> Option<Duration>)
    requires k <= |lines|
    requires LoadLines(lines[..k], compiles, parse).Err?
    ensures LoadLines(lines, compiles, parse) == LoadLines(lines[..k], compiles, parse)
    decreases |lines| - k
  {
    if k < |lines| {
      var longer := lines[..k + 1];
      assert longer[..k] == lines[..k];
      assert LoadLines(longer, compiles, parse) == LoadLines(lines[..k], compiles, parse);
      ErrorPersists(lines, k + 1, compiles, parse);
    } else {
      assert lines[..k] == lines;
    }
  }

  /** One more line extends the result of the lines before it. */
  lemma LoadLinesStep(lines: seq<string>, i: nat, policies: seq<Policy>,
                      compiles: string -> bool, parse: string -> Option<Duration>)
    requires i < |lines|
    requires LoadLines(lines[..i], compiles, parse) == Ok(policies)
    ensures LoadLines(lines[..i + 1], compiles, parse) ==
      match LinePolicy(lines[i], compiles, parse)
      case Err(e) => Err(e)
      case Ok(None) => Ok(policies)
      case Ok(Some(p)) => Ok(policies + [p])
  {
    assert lines[..i + 1][..i] == lines[..i];
  }

  // ---------------------------------------------------------------------
  // The line rules

  /** A trimmed text: no white space at either end. */
  ghost predicate Trimmed(s: string)
  {
    s == [] || (!IsSpace(s[0]) && !IsSpace(s[|s| - 1]))
  }

  /** A line is skipped exactly when it is blank or starts with `#` once
      trimmed; a rule's pattern never holds `#`, its duration holds neither
      `#` nor `=`, and both are trimmed. */
  lemma LineRules(raw: string)
    ensures ClassifyLine(raw) == Blank <==> TrimSpace(raw) == [] || TrimSpace(raw)[0] == '#'
    ensures ClassifyLine(raw).Rule? ==>
      var pattern, duration := ClassifyLine(raw).pattern, ClassifyLine(raw).duration;
      && '#' !in pattern && '#' !in duration && '=' !in duration
      && Trimmed(pattern) && Trimmed(duration)
    ensures ClassifyLine(raw).NoSeparator? ==>
      '=' !in ClassifyLine(raw).line && '#' !in ClassifyLine(raw).line
  {
    var line := TrimSpace(raw);
    if line == [] || line[0] == '#' {
      assert ClassifyLine(raw) == Blank;
    } else {
      CommentFreeBody(line);
      var hash := IndexOf(line, '#');
      var body := if hash == -1 then line else TrimSpace(line[..hash]);
      HalvesFree(body);
      var eq := LastIndexOf(body, '=');
      if eq == -1 {
        assert ClassifyLine(raw) == NoSeparator(body);
      } else {
        assert ClassifyLine(raw) == Rule(TrimSpace(body[..eq]), TrimSpace(body[eq + 1..]));
      }
    }
  }

  /** The text a line keeps after the inline-comment rule holds no `#`. */
  lemma CommentFreeBody(line: string)
    ensures var hash := IndexOf(line, '#');
      '#' !in (if hash == -1 then line else TrimSpace(line[..hash]))
  {
    var hash := IndexOf(line, '#');
    if hash != -1 {
      TrimSpaceKeepsOut(line[..hash], '#');
    }
  }

  /** Split at its last `=`, a text without `#` gives a pattern without `#`
      and a duration with neither `#` nor `=`. */
  lemma HalvesFree(body: string)
    requires '#' !in body
    ensures var eq := LastIndexOf(body, '=');
      eq != -1 ==>
        && '#' !in TrimSpace(body[..eq])
        && '#' !in TrimSpace(body[eq + 1..]) && '=' !in TrimSpace(body[eq + 1..])
  {
    var eq := LastIndexOf(body, '=');
    if eq != -1 {
      var left, right := body[..eq], body[eq + 1..];
      assert '#' !in left by {
        AbsentFromSlice(body, '#', 0, eq);
      }
      assert '#' !in right by {
        AbsentFromSlice(body, '#', eq + 1, |body|);
        assert right == body[eq + 1..|body|];
      }
      TrimSpaceKeepsOut(left, '#');
      TrimSpaceKeepsOut(right, '#');
      TrimSpaceKeepsOut(right, '=');
    }
  }

  /** Writing a rule as `pattern=duration` and reading it back gives the same
      pattern and duration, for any trimmed pattern without `#` that does not
      start a comment and any trimmed duration without `#` or `=`; the pattern
      may itself contain `=`. */
  lemma RuleRoundTrip(pattern: string, duration: string)
    requires Trimmed(pattern) && Trimmed(duration)
    requires '#' !in pattern && '#' !in duration && '=' !in duration
    ensures ClassifyLine(pattern + "=" + duration) == Rule(pattern, duration)
  {
    var line := pattern + "=" + duration;
    assert TrimSpace(line) == line by {
      assert !IsSpace('=');
      assert line[0] == if pattern == [] then '=' else pattern[0];
      assert line[|line| - 1] == if duration == [] then '=' else duration[|duration| - 1];
      TrimSpaceOfTrimmed(line);
    }
    assert line[0] != '#';
    assert '#' !in line;
    SeparatorSplit(pattern, duration);
    TrimSpaceOfTrimmed(pattern);
    TrimSpaceOfTrimmed(duration);
    ClassifyUncommented(line, line, pattern, duration);
  }

  /** How a line without `#` is read once its trim and the two halves of the
      trim around its last `=` are known. */
  lemma ClassifyUncommented(raw: string, line: string, pattern: string, duration: string)
    requires TrimSpace(raw) == line && line != [] && line[0] != '#'
    requires IndexOf(line, '#') == -1
    requires LastIndexOf(line, '=') != -1
    requires TrimSpace(line[..LastIndexOf(line, '=')]) == pattern
    requires TrimSpace(line[LastIndexOf(line, '=') + 1..]) == duration
    ensures ClassifyLine(raw) == Rule(pattern, duration)
  {
  }

  /** A rule with white space before it, around its `=` and before an inline
      comment reads back as the same pattern and duration: the comment is cut
      at its `#` and both halves are trimmed. */
  lemma CommentedRuleRoundTrip(lead: string, pattern: string, before: string, after: string,
                               duration: string, trail: string, comment: string)
    requires AllSpace(lead) && AllSpace(before) && AllSpace(after) && AllSpace(trail)
    requires Trimmed(pattern) && Trimmed(duration) && duration != []
    requires pattern == [] ==> before == []
    requires '#' !in pattern && '#' !in duration && '=' !in duration
    ensures ClassifyLine(lead + pattern + before + "=" + after + duration + trail + "#" + comment)
            == Rule(pattern, duration)
  {
    var left, right := pattern + before, after + duration;
    var core := left + "=" + right;
    Regroup(lead, left, right, trail, comment, pattern, before, after, duration);
    RuleTextShape(pattern, before, after, duration);
    SeparatorSplit(left, right);
    TrimPatternHalf(pattern, before);
    TrimDurationHalf(after, duration);
    CommentedCoreRoundTrip(lead, core, pattern, duration, trail, comment);
  }

  /** A line made of white space, a trimmed rule text `core` without `#`
      that splits into `pattern` and `duration` at its last `=`, more white
      space and a comment reads back as that rule. */
  lemma CommentedCoreRoundTrip(lead: string, core: string, pattern: string, duration: string,
                               trail: string, comment: string)
    requires AllSpace(lead) && AllSpace(trail)
    requires core != [] && Trimmed(core) && '#' !in core
    requires LastIndexOf(core, '=') != -1
    requires TrimSpace(core[..LastIndexOf(core, '=')]) == pattern
    requires TrimSpace(core[LastIndexOf(core, '=') + 1..]) == duration
    ensures ClassifyLine(lead + core + trail + "#" + comment) == Rule(pattern, duration)
  {
    CommentedLineShape(lead, core, trail, comment);
    ClassifyCommented(lead + core + trail + "#" + comment, core + trail + "#" + TrimRight(comment),
                      core, pattern, duration);
  }

  /** How a line with an inline comment is read once its trim, the text
      before its first `#` and the two halves of that text around its last
      `=` are known. */
  lemma ClassifyCommented(raw: string, line: string, body: string, pattern: string, duration: string)
    requires TrimSpace(raw) == line && line != [] && line[0] != '#'
    requires IndexOf(line, '#') != -1 && TrimSpace(line[..IndexOf(line, '#')]) == body
    requires LastIndexOf(body, '=') != -1
    requires TrimSpace(body[..LastIndexOf(body, '=')]) == pattern
    requires TrimSpace(body[LastIndexOf(body, '=') + 1..]) == duration
    ensures ClassifyLine(raw) == Rule(pattern, duration)
  {
  }

  /** The line text grouped as white space, rule text, white space and
      comment. */
  lemma Regroup(lead: string, left: string, right: string, trail: string, comment: string,
                pattern: string, before: string, after: string, duration: string)
    requires left == pattern + before && right == after + duration
    ensures lead + pattern + before + "=" + after + duration + trail + "#" + comment
         == lead + (left + "=" + right) + trail + "#" + comment
  {
  }

  /** The rule text `pattern before = after duration` is non-empty, trimmed
      and free of `#`, and no `=` follows its separator. */
  lemma RuleTextShape(pattern: string, before: string, after: string, duration: string)
    requires AllSpace(before) && AllSpace(after)
    requires Trimmed(pattern) && Trimmed(duration) && duration != []
    requires pattern == [] ==> before == []
    requires '#' !in pattern && '#' !in duration && '=' !in duration
    ensures var core := (pattern + before) + "=" + (after + duration);
      && core != [] && Trimmed(core) && '#' !in core
      && '=' !in after + duration
  {
    var core := (pattern + before) + "=" + (after + duration);
    assert !IsSpace('#') && !IsSpace('=');
    assert core[0] == if pattern == [] then '=' else pattern[0];
    assert core[|core| - 1] == duration[|duration| - 1];
    assert '#' !in before && '#' !in after;
    assert '=' !in after;
  }

  /** Trimming a commented line removes the white space before the rule and
      after the comment only; its first `#` is the one that starts the
      comment, and the text before it trims down to the rule. */
  lemma CommentedLineShape(lead: string, core: string, trail: string, comment: string)
    requires AllSpace(lead) && AllSpace(trail)
    requires core != [] && Trimmed(core) && '#' !in core
    ensures var line := core + trail + "#" + TrimRight(comment);
      && TrimSpace(lead + core + trail + "#" + comment) == line
      && line != [] && line[0] != '#'
      && IndexOf(line, '#') != -1
      && TrimSpace(line[..IndexOf(line, '#')]) == core
  {
    CommentedLineTrim(lead, core, trail, comment);
    CutAtComment(core, trail, TrimRight(comment));
    var line := core + trail + "#" + TrimRight(comment);
    assert line[0] == core[0];
  }

  /** Trimming a commented line removes the white space before the rule and
      after the comment only. */
  lemma CommentedLineTrim(lead: string, core: string, trail: string, comment: string)
    requires AllSpace(lead) && core != [] && !IsSpace(core[0])
    ensures TrimSpace(lead + core + trail + "#" + comment) == core + trail + "#" + TrimRight(comment)
  {
    var x := core + trail + "#" + comment;
    assert lead + core + trail + "#" + comment == lead + x;
    assert x[0] == core[0];
    TrimLeftDropsSpaces(lead, x);
    assert !IsSpace('#');
    TrimRightStopsAt(core + trail, '#', comment);
  }

  /** The first `#` after the rule text is the one the comment starts with,
      and the text before it trims down to the rule. */
  lemma CutAtComment(core: string, trail: string, rest: string)
    requires core != [] && Trimmed(core) && '#' !in core && AllSpace(trail)
    ensures var text := core + trail;
      && IndexOf(text + "#" + rest, '#') == |text|
      && (text + "#" + rest)[..|text|] == text
      && TrimSpace(text) == core
  {
    var text := core + trail;
    assert '#' !in trail by {
      assert !IsSpace('#');
    }
    assert '#' !in text;
    IndexOfFirst(text, '#', rest);
    assert (text + "#" + rest)[..|text|] == text;
    assert text[0] == core[0];
    assert TrimLeft(text) == text;
    TrimRightDropsSpaces(core, trail);
  }

  /** The `=` of `left=right` is its last one when `right` holds none. */
  lemma SeparatorSplit(left: string, right: string)
    requires '=' !in right
    ensures var core := left + "=" + right;
      && LastIndexOf(core, '=') == |left|
      && core[..LastIndexOf(core, '=')] == left && core[LastIndexOf(core, '=') + 1..] == right
  {
    var core := left + "=" + right;
    LastIndexOfSeparator(left, '=', right);
    assert core[..|left|] == left;
    assert core[|left| + 1..] == right;
  }

  /** White space between the pattern and `=` is trimmed away. */
  lemma TrimPatternHalf(pattern: string, before: string)
    requires AllSpace(before) && Trimmed(pattern)
    requires pattern == [] ==> before == []
    ensures TrimSpace(pattern + before) == pattern
  {
    if pattern == [] {
      assert pattern + before == [];
    } else {
      assert (pattern + before)[0] == pattern[0];
      assert TrimLeft(pattern + before) == pattern + before;
      TrimRightDropsSpaces(pattern, before);
    }
  }

  /** White space between `=` and the duration is trimmed away. */
  lemma TrimDurationHalf(after: string, duration: string)
    requires AllSpace(after) && Trimmed(duration) && duration != []
    ensures TrimSpace(after + duration) == duration
  {
    TrimLeftDropsSpaces(after, duration);
    assert TrimRight(duration) == duration;
  }

  // ---------------------------------------------------------------------
  // Loading is all-or-nothing and keeps file order

  /** The policy a line contributes, as a sequence of zero or one. */
  function RuleOf(raw: string, compiles: string -> bool, parse: string -> Option<Duration>): seq<Policy>
  {
    match LinePolicy(raw, compiles, parse)
    case Ok(Some(p)) => [p]
    case _ => []
  }

  /** The policies of the accepted lines, in file order. */
  function Rules(lines: seq<string>, compiles: string -> bool, parse: string -> Option<Duration>): seq<Policy>
  {
    if lines == [] then [] else RuleOf(lines[0], compiles, parse) + Rules(lines[1..], compiles, parse)
  }

  /** Every line passes the line rules, compiles and parses. */
  ghost predicate AllLinesValid(lines: seq<string>, compiles: string -> bool, parse: string -> Option<Duration>)
  {
    forall i :: 0 <= i < |lines| ==> LinePolicy(lines[i], compiles, parse).Ok?
  }

  lemma {:induction false} RulesSnoc(lines: seq<string>, raw: string,
                                     compiles: string -> bool, parse: string -> Option<Duration>)
    ensures Rules(lines + [raw], compiles, parse) == Rules(lines, compiles, parse) + RuleOf(raw, compiles, parse)
  {
    if lines != [] {
      assert (lines + [raw])[1..] == lines[1..] + [raw];
      RulesSnoc(lines[1..], raw, compiles, parse);
    }
  }

  /** The lines load exactly when every line is valid, and then they yield
      one policy per rule line, in file order. */
  lemma {:induction false} LoadLinesAllOrNothing(lines: seq<string>, compiles: string -> bool, parse: string -> Option<Duration>)
    ensures LoadLines(lines, compiles, parse).Ok? <==> AllLinesValid(lines, compiles, parse)
    ensures LoadLines(lines, compiles, parse).Ok? ==> LoadLines(lines, compiles, parse).value == Rules(lines, compiles, parse)
  {
    if lines != [] {
      var init, last := lines[..|lines| - 1], lines[|lines| - 1];
      assert lines == init + [last];
      LoadLinesAllOrNothing(init, compiles, parse);
      RulesSnoc(init, last, compiles, parse);
      if AllLinesValid(lines, compiles, parse) {
        assert AllLinesValid(init, compiles, parse) by {
          forall i | 0 <= i < |init| ensures LinePolicy(init[i], compiles, parse).Ok? {
            assert init[i] == lines[i];
          }
        }
      } else if AllLinesValid(init, compiles, parse) {
        assert forall j :: 0 <= j < |init| ==> lines[j] == init[j];
        assert !LinePolicy(last, compiles, parse).Ok?;
      }
    }
  }

  /** A failing load reports the error of the first line that fails. */
  lemma {:induction false} FirstBadLineDecides(lines: seq<string>, k: nat,
                                               compiles: string -> bool, parse: string -> Option<Duration>)
    requires k < |lines| && LinePolicy(lines[k], compiles, parse).Err?
    requires forall j :: 0 <= j < k ==> LinePolicy(lines[j], compiles, parse).Ok?
    ensures LoadLines(lines, compiles, parse) == Err(LinePolicy(lines[k], compiles, parse).error)
  {
    var before := lines[..k];
    assert AllLinesValid(before, compiles, parse) by {
      forall j | 0 <= j < k ensures LinePolicy(before[j], compiles, parse).Ok? {
        assert before[j] == lines[j];
      }
    }
    LoadLinesAllOrNothing(before, compiles, parse);
    LoadLinesStep(lines, k, LoadLines(before, compiles, parse).value, compiles, parse);
    ErrorPersists(lines, k + 1, compiles, parse);
  }

  /** What loading yields: only the default without a file name or file; the
      default last after one policy per rule line when every line is valid
      and the file reads to its end; an error and no policies otherwise. */
  lemma LoadResult(source: PolicySource, compiles: string -> bool, parse: string -> Option<Duration>)
    ensures source.NoFileName? || source.FileMissing? ==> Load(source, compiles, parse) == Ok([DefaultPolicy])
    ensures source.OpenFailed? ==> Load(source, compiles, parse) == Err(CannotOpen)
    ensures source.FileLines? ==>
      (Load(source, compiles, parse).Ok? <==> !source.readFails && AllLinesValid(source.lines, compiles, parse))
    ensures source.FileLines? && Load(source, compiles, parse).Ok? ==>
      Load(source, compiles, parse).value == Rules(source.lines, compiles, parse) + [DefaultPolicy]
    ensures Load(source, compiles, parse).Ok? ==>
      var policies := Load(source, compiles, parse).value;
      |policies| >= 1 && policies[|policies| - 1] == DefaultPolicy
  {
    if source.FileLines? {
      LoadLinesAllOrNothing(source.lines, compiles, parse);
    }
  }

  // ---------------------------------------------------------------------
  // First-match TTL resolution

  /** Cache.getTTL: the TTL of the first policy whose pattern matches `url`,
      or 0 when none does. */
  function GetTTL(policies: seq<Policy>, matches: (string, string) -> bool, url: string): Duration
  {
    if policies == [] then 0
    else if matches(policies[0].pattern, url) then policies[0].ttl
    else GetTTL(policies[1..], matches, url)
  }

  /** `k` is the position of the earliest policy matching `url`. */
  ghost predicate IsFirstMatch(policies: seq<Policy>, matches: (string, string) -> bool, url: string, k: int)
  {
    && 0 <= k < |policies|
    && matches(policies[k].pattern, url)
    && forall j :: 0 <= j < k ==> !matches(policies[j].pattern, url)
  }

  ghost predicate NoneMatches(policies: seq<Policy>, matches: (string, string) -> bool, url: string)
  {
    forall j :: 0 <= j < |policies| ==> !matches(policies[j].pattern, url)
  }

  /** The resolved TTL is that of the earliest matching policy; later
      matches are ignored. */
  lemma {:induction false} GetTTLFirstMatch(policies: seq<Policy>, matches: (string, string) -> bool, url: string, k: int)
    requires IsFirstMatch(policies, matches, url, k)
    ensures GetTTL(policies, matches, url) == policies[k].ttl
  {
    if k > 0 {
      assert !matches(policies[0].pattern, url);
      GetTTLFirstMatch(policies[1..], matches, url, k - 1);
    }
  }

  /** With no matching policy the resolved TTL is 0. */
  lemma {:induction false} GetTTLNoMatch(policies: seq<Policy>, matches: (string, string) -> bool, url: string)
    requires NoneMatches(policies, matches, url)
    ensures GetTTL(policies, matches, url) == 0
  {
    if policies != [] {
      assert !matches(policies[0].pattern, url);
      GetTTLNoMatch(policies[1..], matches, url);
    }
  }

  /** A policy list followed by more policies resolves as the first list when
      something in it matches, and as the rest otherwise. */
  lemma {:induction false} GetTTLAppend(first: seq<Policy>, rest: seq<Policy>,
                                        matches: (string, string) -> bool, url: string)
    ensures !NoneMatches(first, matches, url) ==> GetTTL(first + rest, matches, url) == GetTTL(first, matches, url)
    ensures NoneMatches(first, matches, url) ==> GetTTL(first + rest, matches, url) == GetTTL(rest, matches, url)
  {
    if first != [] {
      assert (first + rest)[0] == first[0];
      assert (first + rest)[1..] == first[1..] + rest;
      if !matches(first[0].pattern, url) {
        assert NoneMatches(first, matches, url) <==> NoneMatches(first[1..], matches, url) by {
          if !NoneMatches(first, matches, url) {
            var j :| 0 <= j < |first| && matches(first[j].pattern, url);
            assert first[1..][j - 1] == first[j];
          }
        }
        GetTTLAppend(first[1..], rest, matches, url);
      }
    } else {
      assert first + rest == rest;
    }
  }

  /** A loaded list always resolves through one of its policies, never by
      falling off its end: when no explicit policy matches, the default's
      ten minutes apply. */
  lemma LoadedPoliciesResolve(source: PolicySource, compiles: string -> bool, parse: string -> Option<Duration>,
                              matches: (string, string) -> bool, url: string)
    requires Load(source, compiles, parse).Ok?
    requires matches(DefaultPattern, url)
    ensures !NoneMatches(Load(source, compiles, parse).value, matches, url)
    ensures var policies := Load(source, compiles, parse).value;
      NoneMatches(policies[..|policies| - 1], matches, url) ==> GetTTL(policies, matches, url) == 10 * Minute
  {
    LoadResult(source, compiles, parse);
    var policies := Load(source, compiles, parse).value;
    var explicit := policies[..|policies| - 1];
    assert policies == explicit + [DefaultPolicy];
    GetTTLAppend(explicit, [DefaultPolicy], matches, url);
  }

  // ---------------------------------------------------------------------
  // The policies of the package's policy test

  const ExamplePattern: string := ".*\\.example\\.com"
  const TestPattern: string := ".*\\.test\\.com"

  /** The test's two rules followed by the default: a URL of each domain
      gets its rule's TTL and any other URL the default's ten minutes. */
  lemma ExampleResolution(matches: (string, string) -> bool)
    requires matches(ExamplePattern, "http://api.example.com/test")
    requires !matches(ExamplePattern, "http://api.test.com/test") && matches(TestPattern, "http://api.test.com/test")
    requires !matches(ExamplePattern, "http://other.com/test") && !matches(TestPattern, "http://other.com/test")
    requires matches(DefaultPattern, "http://other.com/test")
    ensures var policies := [Policy(ExamplePattern, 5 * Minute), Policy(TestPattern, Second), DefaultPolicy];
      && GetTTL(policies, matches, "http://api.example.com/test") == 5 * Minute
      && GetTTL(policies, matches, "http://api.test.com/test") == Second
      && GetTTL(policies, matches, "http://other.com/test") == 10 * Minute
  {
    var policies := [Policy(ExamplePattern, 5 * Minute), Policy(TestPattern, Second), DefaultPolicy];
    GetTTLFirstMatch(policies, matches, "http://api.example.com/test", 0);
    GetTTLFirstMatch(policies, matches, "http://api.test.com/test", 1);
    GetTTLFirstMatch(policies, matches, "http://other.com/test", 2);
  }
}
