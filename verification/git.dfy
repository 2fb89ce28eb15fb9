/**
 * A model of sphinx_multiversion/git.py.  Every `git` invocation is replaced by
 * its captured output: the `for-each-ref` listing is a string, `ls-tree` for a
 * ref is an oracle from refname to output, and `rev-parse` output is a string.
 * What remains is parsing and filtering.  Two library calls stay abstract and are
 * parameters: `datetime.strptime` (a partial parser) and `re.match` of a
 * user-supplied whitelist pattern (a matcher).  The generators `get_all_refs`
 * and `get_refs` become functions returning a Stream: the refs yielded, in
 * order, and the exception that ended the iteration, if one did.
 */
module Git {
  import opened Wrappers
  import opened PyStr

  /** The timezone-aware value `strptime(..., "%Y-%m-%d %H:%M:%S %z")` produces. */
  datatype DateTime = DateTime(
    year: int, month: int, day: int,
    hour: int, minute: int, second: int,
    utcOffsetMinutes: int)

  /** `datetime.strptime` with the creator-date format: None where it raises ValueError. */
  type DateParser = string -> Option<DateTime>

  /** `re.match(pattern, text)` is truthy: the pattern matches at the start of `text`. */
  type Matcher = (string, string) -> bool

  /** The output of `git ls-tree <refname> <sourcedir>` in the repository, by refname. */
  type LsTree = string -> string

  /** The `GitRef` named tuple. */
  datatype GitRef = GitRef(
    name: string,
    commit: string,
    source: string,
    isRemote: bool,
    refname: string,
    creatordate: DateTime)

  /** The exceptions that end an iteration of the generators. */
  datatype Failure =
    | DateValueError(date: string)          // strptime rejected a creator date
    | SubmoduleIndexError(refname: string)  // `ls-tree` output with fewer than three tokens

  /** What a generator produced: the refs it yielded, then the exception that stopped it, if any. */
  datatype Stream = Stream(items: seq<GitRef>, failure: Option<Failure>)

  /** Running one generator and then, unless it raised, another. */
  function Then(first: Stream, second: Stream): Stream {
    if first.failure.Some? then first else Stream(first.items + second.items, second.failure)
  }

  /** `[f(x) for x in xs]`. */
  function Map<A, B>(f: A -> B, xs: seq<A>): (ys: seq<B>)
    ensures |ys| == |xs|
    ensures forall i | 0 <= i < |xs| :: ys[i] == f(xs[i])
  {
    seq(|xs|, i requires 0 <= i < |xs| => f(xs[i]))
  }

  lemma MapAppend<A, B>(f: A -> B, a: seq<A>, b: seq<A>)
    ensures Map(f, a + b) == Map(f, a) + Map(f, b)
  {
  }

  /** What one pass through a generator's loop body does. */
  datatype Step = Skip | Yield(ref: GitRef) | Raise(failure: Failure)

  /** A generator loop over its passes: it yields, in order, until the first exception. */
  function Run(steps: seq<Step>): (st: Stream)
    ensures forall r | r in st.items :: Yield(r) in steps
    ensures st.failure.Some? <==> exists i | 0 <= i < |steps| :: steps[i].Raise?
    ensures st.failure.Some? ==> Raise(st.failure.value) in steps
    ensures st.failure.None? ==> forall i | 0 <= i < |steps| && steps[i].Yield? :: steps[i].ref in st.items
    ensures |st.items| <= |steps|
  {
    if steps == [] then Stream([], None)
    else
      var rest := Run(steps[1..]);
      assert forall i | 1 <= i < |steps| :: steps[i] == steps[1..][i - 1];
      match steps[0]
      case Skip => rest
      case Yield(r) => Stream([r] + rest.items, rest.failure)
      case Raise(f) => Stream([], Some(f))
  }

  /** Running two stretches of passes is running the first, then, unless it raised, the second. */
  lemma {:induction false} RunAppend(a: seq<Step>, b: seq<Step>)
    ensures Run(a + b) == Then(Run(a), Run(b))
  {
    if a == [] {
      assert a + b == b;
    } else {
      assert (a + b)[0] == a[0];
      assert (a + b)[1..] == a[1..] + b;
      RunAppend(a[1..], b);
      var ra, rb := Run(a[1..]), Run(b);
      if a[0].Yield? && ra.failure.None? {
        assert [a[0].ref] + (ra.items + rb.items) == ([a[0].ref] + ra.items) + rb.items;
      }
    }
  }

  /** The first exception ends the run: what was yielded before it, then that exception. */
  lemma RunFirstRaise(steps: seq<Step>, k: nat)
    requires k < |steps| && steps[k].Raise?
    requires forall i | 0 <= i < k :: !steps[i].Raise?
    ensures Run(steps) == Stream(Run(steps[..k]).items, Some(steps[k].failure))
  {
    assert steps == steps[..k] + steps[k..];
    RunAppend(steps[..k], steps[k..]);
    assert steps[k..][0] == steps[k];
  }

  predicate IsSubsequence<T(==)>(xs: seq<T>, ys: seq<T>)
    decreases |ys|
  {
    if xs == [] then true
    else if ys == [] then false
    else (xs[0] == ys[0] && IsSubsequence(xs[1..], ys[1..])) || IsSubsequence(xs, ys[1..])
  }

  /** When every pass yields, if anything, its own input, the run yields a subsequence of the inputs. */
  lemma {:induction false} RunSubsequence(steps: seq<Step>, inputs: seq<GitRef>)
    requires |steps| == |inputs|
    requires forall i | 0 <= i < |steps| && steps[i].Yield? :: steps[i].ref == inputs[i]
    ensures IsSubsequence(Run(steps).items, inputs)
  {
    if steps != [] {
      RunSubsequence(steps[1..], inputs[1..]);
      var items := Run(steps).items;
      if steps[0].Yield? && items != [] {
        assert items[1..] == Run(steps[1..]).items;
      }
    }
  }

  // ================================================================ refname grammar

  /** The values the group `(heads|tags|remotes/[^/]+)` can capture. */
  predicate IsSource(source: string) {
    || source == "heads"
    || source == "tags"
    || (|source| > 8 && source[..8] == "remotes/" && '/' !in source[8..])
  }

  function RefPath(source: string, name: string): string {
    "refs/" + source + "/" + name
  }

  datatype RefClass = RefClass(source: string, name: string)

  /** `(\S+)$`: the rest is one word, or one word and a final "\n" (before which `$` also matches). */
  function NameGroup(source: string, t: string): (c: Option<RefClass>)
    ensures c.Some? ==> c.value.source == source && IsWord(c.value.name)
    ensures c.Some? ==> t == c.value.name || t == c.value.name + "\n"
    ensures IsWord(t) ==> c == Some(RefClass(source, t))
  {
    if IsWord(t) then Some(RefClass(source, t))
    else if |t| > 1 && t[|t| - 1] == '\n' && IsWord(t[..|t| - 1]) then
      assert t == t[..|t| - 1] + "\n";
      Some(RefClass(source, t[..|t| - 1]))
    else None
  }

  predicate StartsWith(s: string, prefix: string) {
    |prefix| <= |s| && s[..|prefix|] == prefix
  }

  lemma StartsWithSplit(s: string, prefix: string)
    requires StartsWith(s, prefix)
    ensures s == prefix + s[|prefix|..]
  {
  }

  /** `remotes/([^/]+)/(\S+)$` after "refs/": the remote segment ends at the first "/". */
  function RemoteGroups(after: string): (c: Option<RefClass>)
    ensures c.Some? ==> IsSource(c.value.source) && IsWord(c.value.name)
    ensures c.Some? ==>
      || "remotes/" + after == c.value.source + "/" + c.value.name
      || "remotes/" + after == c.value.source + "/" + c.value.name + "\n"
  {
    var k := Span(after, IsSlash);
    if k == 0 || k == |after| then None
    else
      var source := "remotes/" + after[..k];
      assert source[..8] == "remotes/" && source[8..] == after[..k];
      assert "remotes/" + after == source + "/" + after[k + 1..] by {
        assert after == after[..k] + [after[k]] + after[k + 1..];
      }
      NameGroup(source, after[k + 1..])
  }

  /** `source/(\S+)$` for a fixed source: the name group after the "/". */
  function NamedAfter(source: string, rest: string): (c: Option<RefClass>)
    requires StartsWith(rest, source + "/")
    ensures c.Some? ==> c.value.source == source && IsWord(c.value.name)
    ensures c.Some? ==>
      || rest == source + "/" + c.value.name
      || rest == source + "/" + c.value.name + "\n"
  {
    var t := rest[|source| + 1..];
    assert rest == (source + "/") + t;
    var c := NameGroup(source, t);
    assert c.Some? && t != c.value.name ==> rest == source + "/" + c.value.name + "\n" by {
      if c.Some? && t != c.value.name {
        assert (source + "/") + (c.value.name + "\n") == source + "/" + c.value.name + "\n";
      }
    }
    c
  }

  /** `(heads|tags|remotes/[^/]+)/(\S+)$` after "refs/", alternatives tried in order. */
  function RefGroups(rest: string): (c: Option<RefClass>)
    ensures c.Some? ==> IsSource(c.value.source) && IsWord(c.value.name)
    ensures c.Some? ==>
      || rest == c.value.source + "/" + c.value.name
      || rest == c.value.source + "/" + c.value.name + "\n"
  {
    if StartsWith(rest, "heads/") then
      assert IsSource("heads");
      NamedAfter("heads", rest)
    else if StartsWith(rest, "tags/") then
      assert IsSource("tags");
      NamedAfter("tags", rest)
    else if StartsWith(rest, "remotes/") then
      StartsWithSplit(rest, "remotes/");
      RemoteGroups(rest[8..])
    else None
  }

  /**
   * `re.match(r"^refs/(heads|tags|remotes/[^/]+)/(\S+)$", refname)`: its two
   * groups, or None where it does not match.  `[^/]+` can only end at the
   * first "/" after "refs/remotes/".
   */
  function ClassifyRefname(refname: string): (c: Option<RefClass>)
    ensures c.Some? ==> IsSource(c.value.source) && IsWord(c.value.name)
    ensures c.Some? ==>
      || refname == RefPath(c.value.source, c.value.name)
      || refname == RefPath(c.value.source, c.value.name) + "\n"
  {
    if !StartsWith(refname, "refs/") then None
    else
      StartsWithSplit(refname, "refs/");
      var c := RefGroups(refname[5..]);
      if c.Some? then
        RefPathAfterRefs(c.value.source, c.value.name);
        c
      else c
  }

  lemma RefPathAfterRefs(source: string, name: string)
    ensures RefPath(source, name) == "refs/" + (source + "/" + name)
    ensures RefPath(source, name) + "\n" == "refs/" + (source + "/" + name + "\n")
  {
  }

  lemma NamedAfterOf(source: string, name: string)
    requires IsWord(name)
    ensures NamedAfter(source, source + "/" + name) == Some(RefClass(source, name))
  {
    var rest := source + "/" + name;
    assert rest == (source + "/") + name;
    assert rest[|source| + 1..] == name;
  }

  lemma RemoteGroupsOf(segment: string, name: string)
    requires segment != [] && '/' !in segment && IsWord(name)
    ensures RemoteGroups(segment + "/" + name) == Some(RefClass("remotes/" + segment, name))
  {
    var after := segment + ['/'] + name;
    assert segment + "/" + name == after;
    SpanAt(segment, '/', name, IsSlash);
    assert after[..|segment|] == segment;
    assert after[|segment| + 1..] == name;
  }

  lemma RefGroupsOf(source: string, name: string)
    requires IsSource(source) && IsWord(name)
    ensures RefGroups(source + "/" + name) == Some(RefClass(source, name))
  {
    if source == "heads" {
      RefGroupsHeads(name);
    } else if source == "tags" {
      RefGroupsTags(name);
    } else {
      var segment := source[8..];
      assert source == "remotes/" + segment;
      RefGroupsRemotes(segment, name);
    }
  }

  lemma RefGroupsHeads(name: string)
    requires IsWord(name)
    ensures RefGroups("heads/" + name) == Some(RefClass("heads", name))
  {
    assert "heads" + "/" + name == "heads/" + name;
    NamedAfterOf("heads", name);
  }

  lemma RefGroupsTags(name: string)
    requires IsWord(name)
    ensures RefGroups("tags/" + name) == Some(RefClass("tags", name))
  {
    var rest := "tags/" + name;
    assert rest[0] == 't';
    assert "tags" + "/" + name == rest;
    NamedAfterOf("tags", name);
  }

  lemma RefGroupsRemotes(segment: string, name: string)
    requires segment != [] && '/' !in segment && IsWord(name)
    ensures RefGroups("remotes/" + segment + "/" + name) == Some(RefClass("remotes/" + segment, name))
  {
    var after := segment + "/" + name;
    var rest := "remotes/" + after;
    assert "remotes/" + segment + "/" + name == rest;
    assert rest[..8] == "remotes/" && rest[8..] == after;
    assert rest[..6][0] == 'r' && rest[..5][0] == 'r';
    RemoteGroupsOf(segment, name);
  }

  /** The grammar recognises every refname it describes, and recovers both groups. */
  lemma ClassifyRefPath(source: string, name: string)
    requires IsSource(source) && IsWord(name)
    ensures ClassifyRefname(RefPath(source, name)) == Some(RefClass(source, name))
  {
    var refname := RefPath(source, name);
    var rest := source + "/" + name;
    assert refname == "refs/" + rest;
    assert StartsWith(refname, "refs/") && refname[5..] == rest;
    RefGroupsOf(source, name);
  }

  /** A ref as `get_all_refs` yields it, with `refname` possibly ending in the "\n" that `$` admits. */
  predicate WellFormed(r: GitRef) {
    && IsSource(r.source)
    && IsWord(r.name)
    && (r.isRemote <==> StartsWith(r.source, "remotes/"))
    && (r.refname == RefPath(r.source, r.name) || r.refname == RefPath(r.source, r.name) + "\n")
  }

  /** `is_remote` holds exactly for the refs that are neither local branches nor tags. */
  lemma IsRemoteExactlyRemotes(r: GitRef)
    requires WellFormed(r)
    ensures r.isRemote <==> r.source != "heads" && r.source != "tags"
  {
  }

  // ================================================================ get_all_refs

  /** What one line of the listing leads to. */
  datatype LineOutcome =
    | WrongFieldCount                    // skipped
    | BadDate(date: string)              // raises: the listing ends
    | UnknownRefname(refname: string)    // skipped
    | Parsed(ref: GitRef)                // yielded

  lemma NotNewlineTerminated(s: string, t: string)
    requires NoLineBreak(s)
    ensures s != t + "\n"
  {
    if s == t + "\n" {
      assert IsLineBreak(s[|s| - 1]);
    }
  }

  /** A line yields a ref only if the stripped line has exactly two tabs, that is three fields. */
  lemma FieldCountRule(line: string, parseDate: DateParser)
    ensures ParseLine(line, parseDate).WrongFieldCount? <==> Count(Strip(line), '\t') != 2
  {
  }

  /** `line.strip().split("\t")`. */
  function Fields(line: string): (fields: seq<string>)
    ensures |fields| == Count(Strip(line), '\t') + 1
    ensures Join(fields, '\t') == Strip(line)
    ensures forall i | 0 <= i < |fields| :: '\t' !in fields[i]
  {
    JoinSplit(Strip(line), '\t');
    SplitOn(Strip(line), '\t')
  }

  /** One iteration of the loop in `get_all_refs`. */
  function ParseLine(line: string, parseDate: DateParser): (o: LineOutcome)
    ensures o.Parsed? ==> WellFormed(o.ref)
    ensures o.Parsed? ==>
      && |Fields(line)| == 3 && o.ref.commit == Fields(line)[0] && o.ref.refname == Fields(line)[1]
      && ClassifyRefname(o.ref.refname) == Some(RefClass(o.ref.source, o.ref.name))
    ensures o.Parsed? && NoLineBreak(line) ==> o.ref.refname == RefPath(o.ref.source, o.ref.name)
  {
    var fields := Fields(line);
    if |fields| != 3 then WrongFieldCount
    else
      match parseDate(fields[2])
      case None => BadDate(fields[2])
      case Some(date) =>
        match ClassifyRefname(fields[1])
        case None => UnknownRefname(fields[1])
        case Some(c) =>
          var isRemote := StartsWith(c.source, "remotes/");
          var refname := fields[1];
          assert NoLineBreak(line) ==> refname == RefPath(c.source, c.name) by {
            if NoLineBreak(line) {
              StripSpec(line);
              assert NoLineBreak(refname);
              NotNewlineTerminated(refname, RefPath(c.source, c.name));
            }
          }
          Parsed(GitRef(c.name, fields[0], c.source, isRemote, refname, date))
  }

  /** The line `for-each-ref` prints for one ref with the format `%(objectname)\t%(refname)\t%(creatordate:iso)`. */
  function RefLine(commit: string, refname: string, date: string): string {
    commit + "\t" + refname + "\t" + date
  }

  /**
   * Parsing a listing line recovers its three fields.  The date is parsed first:
   * an unparsable date ends the listing even where the refname would have been
   * skipped.
   */
  lemma ParseRefLine(commit: string, refname: string, date: string, parseDate: DateParser)
    requires '\t' !in commit && '\t' !in refname && '\t' !in date
    requires commit != [] && !IsSpace(commit[0]) && date != [] && !IsSpace(date[|date| - 1])
    ensures var o := ParseLine(RefLine(commit, refname, date), parseDate);
      && (o.BadDate? <==> parseDate(date).None?)
      && (o.UnknownRefname? <==> parseDate(date).Some? && ClassifyRefname(refname).None?)
      && (o.Parsed? <==> parseDate(date).Some? && ClassifyRefname(refname).Some?)
      && (o.Parsed? ==>
            && o.ref.commit == commit && o.ref.refname == refname
            && parseDate(date) == Some(o.ref.creatordate)
            && ClassifyRefname(refname) == Some(RefClass(o.ref.source, o.ref.name)))
  {
    var line := RefLine(commit, refname, date);
    var rest := refname + "\t" + date;
    assert line == commit + "\t" + rest;
    assert Strip(line) == line by {
      StripAround([], line, []);
      assert [] + line + [] == line;
    }
    assert Join([commit, refname, date], '\t') == line by {
      assert Join([refname, date], '\t') == rest;
      assert [commit, refname, date][1..] == [refname, date];
    }
    SplitJoin([commit, refname, date], '\t');
  }

  /** The pass of the loop in `get_all_refs` for one line. */
  function LineStep(o: LineOutcome): Step {
    match o
    case BadDate(date) => Raise(DateValueError(date))
    case Parsed(r) => Yield(r)
    case _ => Skip
  }

  function LineSteps(lines: seq<string>, parseDate: DateParser): (steps: seq<Step>)
    ensures |steps| == |lines|
    ensures forall i | 0 <= i < |lines| :: steps[i] == LineStep(ParseLine(lines[i], parseDate))
  {
    if lines == [] then []
    else [LineStep(ParseLine(lines[0], parseDate))] + LineSteps(lines[1..], parseDate)
  }

  lemma {:induction false} LineStepsAppend(a: seq<string>, b: seq<string>, parseDate: DateParser)
    ensures LineSteps(a + b, parseDate) == LineSteps(a, parseDate) + LineSteps(b, parseDate)
  {
    if a == [] {
      assert a + b == b;
    } else {
      assert (a + b)[0] == a[0];
      assert (a + b)[1..] == a[1..] + b;
      LineStepsAppend(a[1..], b, parseDate);
    }
  }

  /** The loop of `get_all_refs` over the lines of the listing. */
  function ParseLines(lines: seq<string>, parseDate: DateParser): (st: Stream)
    ensures forall r | r in st.items :: WellFormed(r)
  {
    var steps := LineSteps(lines, parseDate);
    var st := Run(steps);
    assert forall r | r in st.items :: WellFormed(r) by {
      forall r | r in st.items ensures WellFormed(r) {
        var i :| 0 <= i < |steps| && steps[i] == Yield(r);
        LineStepYield(ParseLine(lines[i], parseDate), r);
      }
    }
    st
  }

  /** Each yielded ref is what some line of the listing parses to. */
  lemma ParsedFromLines(lines: seq<string>, parseDate: DateParser, r: GitRef)
    requires r in ParseLines(lines, parseDate).items
    ensures exists i | 0 <= i < |lines| :: ParseLine(lines[i], parseDate) == Parsed(r)
  {
    var steps := LineSteps(lines, parseDate);
    var i :| 0 <= i < |steps| && steps[i] == Yield(r);
    LineStepYield(ParseLine(lines[i], parseDate), r);
  }

  /** Only a parsed line makes its pass yield, and it yields the parsed ref. */
  lemma LineStepYield(o: LineOutcome, r: GitRef)
    requires LineStep(o) == Yield(r)
    ensures o == Parsed(r)
  {
  }

  /** The listing fails exactly when some line has three fields and a date strptime rejects. */
  lemma ListingFailsIffBadDate(lines: seq<string>, parseDate: DateParser)
    ensures ParseLines(lines, parseDate).failure.Some? <==>
      exists i | 0 <= i < |lines| :: ParseLine(lines[i], parseDate).BadDate?
    ensures ParseLines(lines, parseDate).failure.Some? ==>
      ParseLines(lines, parseDate).failure.value.DateValueError?
  {
    var steps := LineSteps(lines, parseDate);
    var st := Run(steps);
    forall i | 0 <= i < |lines|
      ensures steps[i].Raise? <==> ParseLine(lines[i], parseDate).BadDate?
      ensures steps[i].Raise? ==> steps[i].failure.DateValueError?
    {
      LineStepRaise(ParseLine(lines[i], parseDate));
    }
  }

  /** Only a bad date makes a line's pass raise, and what it raises is the date's ValueError. */
  lemma LineStepRaise(o: LineOutcome)
    ensures LineStep(o).Raise? <==> o.BadDate?
    ensures LineStep(o).Raise? ==> LineStep(o).failure == DateValueError(o.date)
  {
  }

  /** `get_all_refs`, given the output of `git for-each-ref`. */
  function GetAllRefs(output: string, parseDate: DateParser): (st: Stream)
    ensures forall r | r in st.items :: WellFormed(r) && r.refname == RefPath(r.source, r.name)
  {
    var lines := SplitLines(output);
    var st := ParseLines(lines, parseDate);
    assert forall r | r in st.items :: r.refname == RefPath(r.source, r.name) by {
      forall r | r in st.items ensures r.refname == RefPath(r.source, r.name) {
        ParsedFromLines(lines, parseDate, r);
      }
    }
    st
  }

  /** Parsing a listing in two parts is parsing the first, then, unless it raised, the second. */
  lemma ParseLinesAppend(a: seq<string>, b: seq<string>, parseDate: DateParser)
    ensures ParseLines(a + b, parseDate) == Then(ParseLines(a, parseDate), ParseLines(b, parseDate))
  {
    LineStepsAppend(a, b, parseDate);
    RunAppend(LineSteps(a, parseDate), LineSteps(b, parseDate));
  }

  /** A skipped line (wrong field count, unknown refname) changes nothing: parsing goes on. */
  lemma SkippedLine(a: seq<string>, line: string, b: seq<string>, parseDate: DateParser)
    requires ParseLine(line, parseDate).WrongFieldCount? || ParseLine(line, parseDate).UnknownRefname?
    ensures ParseLines(a + [line] + b, parseDate) == ParseLines(a + b, parseDate)
  {
    SingleLine(line, parseDate);
    assert LineStep(ParseLine(line, parseDate)) == Skip;
    assert [Skip][1..] == [];
    SilentLine(a, line, b, parseDate);
  }

  /** A line that yields nothing and raises nothing can be dropped from the listing. */
  lemma SilentLine(a: seq<string>, line: string, b: seq<string>, parseDate: DateParser)
    requires ParseLines([line], parseDate) == Stream([], None)
    ensures ParseLines(a + [line] + b, parseDate) == ParseLines(a + b, parseDate)
  {
    var rest := ParseLines(b, parseDate);
    assert ParseLines([line] + b, parseDate) == rest by {
      ParseLinesAppend([line], b, parseDate);
      assert [] + rest.items == rest.items;
    }
    assert a + [line] + b == a + ([line] + b);
    ParseLinesAppend(a, [line] + b, parseDate);
    ParseLinesAppend(a, b, parseDate);
  }

  /** A listing of one line is that line's pass. */
  lemma SingleLine(line: string, parseDate: DateParser)
    ensures ParseLines([line], parseDate) == Run([LineStep(ParseLine(line, parseDate))])
  {
    assert LineSteps([line], parseDate) == [LineStep(ParseLine(line, parseDate))];
  }

  /** The first line with a bad date ends the listing: the refs before it are yielded, then ValueError. */
  lemma FirstBadDateEndsListing(lines: seq<string>, k: nat, parseDate: DateParser)
    requires k < |lines| && ParseLine(lines[k], parseDate).BadDate?
    requires forall i | 0 <= i < k :: !ParseLine(lines[i], parseDate).BadDate?
    ensures ParseLines(lines, parseDate) ==
      Stream(ParseLines(lines[..k], parseDate).items,
             Some(DateValueError(ParseLine(lines[k], parseDate).date)))
  {
    var steps := LineSteps(lines, parseDate);
    RunFirstRaise(steps, k);
    assert steps[..k] == LineSteps(lines[..k], parseDate);
  }

  // ================================================================ get_refs

  /** The three optional whitelist patterns; None is Python's `None`. */
  datatype Whitelists = Whitelists(tag: Option<string>, branch: Option<string>, remote: Option<string>)

  /** Why `get_refs` passes a ref on or skips it (the debug message it logs). */
  datatype Verdict =
    | Admitted
    | TagNotWhitelisted
    | BranchNotWhitelisted
    | RemoteNotWhitelisted
    | NotBranchOrTag

  /** `pattern is not None and re.match(pattern, text)`. */
  predicate Allows(pattern: Option<string>, text: string, matches: Matcher) {
    pattern.Some? && matches(pattern.value, text)
  }

  /** `ref.source.partition("/")[2]`. */
  function RemoteName(r: GitRef): string {
    AfterFirst(r.source, '/')
  }

  /** The whitelist decision table of `get_refs`, keyed on `source`. */
  function Admit(r: GitRef, wl: Whitelists, matches: Matcher): (v: Verdict)
    ensures v == Admitted ==>
      if r.source == "tags" then Allows(wl.tag, r.name, matches) else Allows(wl.branch, r.name, matches)
    ensures v == Admitted && r.source != "tags" && r.source != "heads" ==>
      r.isRemote && Allows(wl.remote, RemoteName(r), matches)
  {
    if r.source == "tags" then
      if Allows(wl.tag, r.name, matches) then Admitted else TagNotWhitelisted
    else if r.source == "heads" then
      if Allows(wl.branch, r.name, matches) then Admitted else BranchNotWhitelisted
    else if r.isRemote && wl.remote.Some? then
      if !matches(wl.remote.value, RemoteName(r)) then RemoteNotWhitelisted
      else if !Allows(wl.branch, r.name, matches) then BranchNotWhitelisted
      else Admitted
    else NotBranchOrTag
  }

  /** Tags are default-deny: admitted only by a tag whitelist that matches the name. */
  lemma TagRow(r: GitRef, wl: Whitelists, matches: Matcher)
    requires r.source == "tags"
    ensures Admit(r, wl, matches) == Admitted <==> wl.tag.Some? && matches(wl.tag.value, r.name)
    ensures Admit(r, wl, matches) != Admitted ==> Admit(r, wl, matches) == TagNotWhitelisted
  {
  }

  /** Local branches are default-deny: admitted only by a branch whitelist that matches the name. */
  lemma HeadsRow(r: GitRef, wl: Whitelists, matches: Matcher)
    requires r.source == "heads"
    ensures Admit(r, wl, matches) == Admitted <==> wl.branch.Some? && matches(wl.branch.value, r.name)
    ensures Admit(r, wl, matches) != Admitted ==> Admit(r, wl, matches) == BranchNotWhitelisted
  {
  }

  /** The remote name of a parsed remote ref is the segment between "refs/remotes/" and the next "/". */
  lemma RemoteNameOfRef(r: GitRef, remote: string)
    requires WellFormed(r) && r.source == "remotes/" + remote
    ensures RemoteName(r) == remote
  {
    assert r.source == "remotes" + ['/'] + remote;
    AfterFirstAt("remotes", '/', remote);
  }

  /** A remote branch needs both whitelists, matching the remote name and the branch name. */
  lemma RemoteRow(r: GitRef, remote: string, wl: Whitelists, matches: Matcher)
    requires WellFormed(r) && r.source == "remotes/" + remote
    ensures r.isRemote
    ensures Admit(r, wl, matches) == Admitted <==>
      && wl.remote.Some? && matches(wl.remote.value, remote)
      && wl.branch.Some? && matches(wl.branch.value, r.name)
    ensures wl.remote.None? ==> Admit(r, wl, matches) == NotBranchOrTag
  {
    RemoteNameOfRef(r, remote);
  }

  /** With no whitelist configured, no well-formed ref is admitted. */
  lemma NoWhitelistAdmitsNothing(r: GitRef, matches: Matcher)
    requires WellFormed(r)
    ensures Admit(r, Whitelists(None, None, None), matches) != Admitted
  {
  }

  // ================================================================ ls-tree parsing

  /** `submodule_exists`, given the `ls-tree` output: None where `output.split()[2]` raises IndexError. */
  function SubmoduleExists(output: string, current: string): (r: Option<bool>)
    ensures output == "" ==> r == Some(false)
    ensures r == Some(true) ==> IsWord(current)
  {
    if output == "" then Some(false)
    else
      TokensSpec(output);
      var tokens := Tokens(output);
      if |tokens| < 3 then None else Some(tokens[2] == current)
  }

  /** `get_current_submodule_commit`: the third token of `ls-tree HEAD <sourcedir>`, or None for IndexError. */
  function CurrentSubmoduleCommit(output: string): (r: Option<string>)
    ensures r.Some? ==> IsWord(r.value)
  {
    TokensSpec(output);
    var tokens := Tokens(output);
    if |tokens| < 3 then None else Some(tokens[2])
  }

  /** One entry of `git ls-tree` output: mode, object type, object name, then a tab and the path. */
  datatype TreeEntry = TreeEntry(mode: string, kind: string, objectName: string, path: string)

  function LsTreeLine(e: TreeEntry): string {
    e.mode + " " + e.kind + " " + e.objectName + "\t" + e.path + "\n"
  }

  lemma LsTreeLineTokens(e: TreeEntry)
    requires IsWord(e.mode) && IsWord(e.kind) && IsWord(e.objectName)
    ensures Tokens(LsTreeLine(e)) == [e.mode, e.kind, e.objectName] + Tokens(e.path + "\n")
  {
    var tail := e.path + "\n";
    assert LsTreeLine(e) == e.mode + [' '] + (e.kind + [' '] + (e.objectName + ['\t'] + tail));
    TokensAfterThreeWords(e.mode, ' ', e.kind, ' ', e.objectName, '\t', tail);
  }

  /** For an `ls-tree` entry the check compares the recorded object with the current submodule commit. */
  lemma SubmoduleExistsOnEntry(e: TreeEntry, current: string)
    requires IsWord(e.mode) && IsWord(e.kind) && IsWord(e.objectName)
    ensures SubmoduleExists(LsTreeLine(e), current) == Some(e.objectName == current)
    ensures CurrentSubmoduleCommit(LsTreeLine(e)) == Some(e.objectName)
  {
    LsTreeLineTokens(e);
  }

  /** Both parsers read the same token: a non-empty output passes exactly for the commit the other reads. */
  lemma SubmoduleExistsAgreesWithCurrent(output: string, current: string)
    requires output != ""
    ensures SubmoduleExists(output, current) == Some(true) <==> CurrentSubmoduleCommit(output) == Some(current)
    ensures SubmoduleExists(output, current).None? <==> CurrentSubmoduleCommit(output).None?
  {
  }

  // ================================================================ the filter loop of get_refs

  /** The ref passes the whitelists and its tree has the submodule at the current commit. */
  predicate Keeps(r: GitRef, wl: Whitelists, matches: Matcher, lsTree: LsTree, current: string) {
    Admit(r, wl, matches) == Admitted && SubmoduleExists(lsTree(r.refname), current) == Some(true)
  }

  /** The ref passes the whitelists and its `ls-tree` output is non-empty but too short to hold a commit. */
  predicate Raises(r: GitRef, wl: Whitelists, matches: Matcher, lsTree: LsTree) {
    Admit(r, wl, matches) == Admitted && lsTree(r.refname) != "" && |Tokens(lsTree(r.refname))| < 3
  }

  /** The pass of the loop in `get_refs` for one ref. */
  function RefStep(r: GitRef, wl: Whitelists, matches: Matcher, lsTree: LsTree, current: string): (step: Step)
    ensures step.Yield? <==> Keeps(r, wl, matches, lsTree, current)
    ensures step.Yield? ==> step.ref == r
    ensures step.Raise? <==> Raises(r, wl, matches, lsTree)
  {
    if Admit(r, wl, matches) != Admitted then Skip
    else
      match SubmoduleExists(lsTree(r.refname), current)
      case None => Raise(SubmoduleIndexError(r.refname))
      case Some(false) => Skip
      case Some(true) => Yield(r)
  }

  function RefSteps(refs: seq<GitRef>, wl: Whitelists, matches: Matcher, lsTree: LsTree, current: string)
    : (steps: seq<Step>)
    ensures |steps| == |refs|
    ensures forall i | 0 <= i < |refs| :: steps[i] == RefStep(refs[i], wl, matches, lsTree, current)
  {
    Map(r => RefStep(r, wl, matches, lsTree, current), refs)
  }

  /** The loop of `get_refs` over the refs `get_all_refs` yields. */
  function FilterRefs(refs: seq<GitRef>, wl: Whitelists, matches: Matcher, lsTree: LsTree, current: string)
    : (st: Stream)
    ensures IsSubsequence(st.items, refs)
    ensures forall r | r in st.items :: r in refs && Keeps(r, wl, matches, lsTree, current)
    ensures st.failure.Some? <==> exists i | 0 <= i < |refs| :: Raises(refs[i], wl, matches, lsTree)
    ensures st.failure.None? ==>
      forall i | 0 <= i < |refs| :: Keeps(refs[i], wl, matches, lsTree, current) ==> refs[i] in st.items
  {
    var steps := RefSteps(refs, wl, matches, lsTree, current);
    RunSubsequence(steps, refs);
    var st := Run(steps);
    assert forall r | r in st.items :: r in refs && Keeps(r, wl, matches, lsTree, current) by {
      forall r | r in st.items ensures r in refs && Keeps(r, wl, matches, lsTree, current) {
        var i :| 0 <= i < |steps| && steps[i] == Yield(r);
        assert refs[i] == r;
      }
    }
    assert st.failure.Some? ==> exists i | 0 <= i < |refs| :: Raises(refs[i], wl, matches, lsTree) by {
      if st.failure.Some? {
        var i :| 0 <= i < |steps| && steps[i].Raise?;
        assert Raises(refs[i], wl, matches, lsTree);
      }
    }
    st
  }

  /** Filtering two stretches of refs is filtering the first, then, unless it raised, the second. */
  lemma FilterRefsAppend(a: seq<GitRef>, b: seq<GitRef>, wl: Whitelists,
                         matches: Matcher, lsTree: LsTree, current: string)
    ensures FilterRefs(a + b, wl, matches, lsTree, current) ==
      Then(FilterRefs(a, wl, matches, lsTree, current), FilterRefs(b, wl, matches, lsTree, current))
  {
    MapAppend(r => RefStep(r, wl, matches, lsTree, current), a, b);
    RunAppend(RefSteps(a, wl, matches, lsTree, current), RefSteps(b, wl, matches, lsTree, current));
  }

  /**
   * `get_refs`: filters the refs of the listing as they are yielded.  An IndexError
   * from the submodule check comes before any later listing line is parsed, so it
   * wins over a ValueError further down the listing.
   */
  function GetRefs(output: string, parseDate: DateParser, wl: Whitelists, matches: Matcher,
                   lsTree: LsTree, current: string): (st: Stream)
    ensures IsSubsequence(st.items, GetAllRefs(output, parseDate).items)
    ensures forall r | r in st.items ::
      && WellFormed(r) && r.refname == RefPath(r.source, r.name)
      && Keeps(r, wl, matches, lsTree, current)
    ensures st.failure.None? <==>
      && GetAllRefs(output, parseDate).failure.None?
      && forall r | r in GetAllRefs(output, parseDate).items :: !Raises(r, wl, matches, lsTree)
    ensures st.failure.None? ==>
      forall r | r in GetAllRefs(output, parseDate).items && Keeps(r, wl, matches, lsTree, current) ::
        r in st.items
  {
    var listing := GetAllRefs(output, parseDate);
    var kept := FilterRefs(listing.items, wl, matches, lsTree, current);
    if kept.failure.Some? then kept else Stream(kept.items, listing.failure)
  }

  /** The listing line of a local branch parses to that branch. */
  lemma ParseBranchLine(commit: string, name: string, date: string, parseDate: DateParser)
    requires IsWord(commit) && IsWord(name)
    requires '\t' !in date && date != [] && !IsSpace(date[|date| - 1]) && parseDate(date).Some?
    ensures ParseLine(RefLine(commit, RefPath("heads", name), date), parseDate) ==
      Parsed(GitRef(name, commit, "heads", false, RefPath("heads", name), parseDate(date).value))
  {
    var refname := RefPath("heads", name);
    assert '\t' !in refname by {
      assert refname == "refs/heads/" + name;
    }
    ClassifyRefPath("heads", name);
    ParseRefLine(commit, refname, date, parseDate);
    assert !StartsWith("heads", "remotes/");
  }

  /**
   * A branch whitelist "main", the ref refs/heads/main whose tree has the submodule
   * at the current commit, and refs/heads/experiment whose tree has no submodule:
   * exactly main is yielded.
   */
  lemma MainOnlyScenario(mainCommit: string, otherCommit: string, date: string, parseDate: DateParser,
                         matches: Matcher, lsTree: LsTree, entry: TreeEntry)
    requires IsWord(mainCommit) && IsWord(otherCommit) && '\t' !in date && NoLineBreak(date)
    requires date != [] && !IsSpace(date[|date| - 1]) && parseDate(date).Some?
    requires matches("main", "main") && !matches("main", "experiment")
    requires IsWord(entry.mode) && IsWord(entry.kind) && IsWord(entry.objectName)
    requires lsTree("refs/heads/main") == LsTreeLine(entry) && lsTree("refs/heads/experiment") == ""
    ensures GetRefs(JoinLines([RefLine(mainCommit, "refs/heads/main", date),
                               RefLine(otherCommit, "refs/heads/experiment", date)]),
                    parseDate, Whitelists(None, Some("main"), None), matches, lsTree, entry.objectName)
            == Stream([GitRef("main", mainCommit, "heads", false, "refs/heads/main", parseDate(date).value)], None)
  {
    var d := parseDate(date).value;
    var main := GitRef("main", mainCommit, "heads", false, "refs/heads/main", d);
    var experiment := GitRef("experiment", otherCommit, "heads", false, "refs/heads/experiment", d);
    ListingMainAndExperiment(mainCommit, otherCommit, date, parseDate);
    FilterMainOnly(main, experiment, matches, lsTree, entry);
  }

  lemma ListingMainAndExperiment(mainCommit: string, otherCommit: string, date: string, parseDate: DateParser)
    requires IsWord(mainCommit) && IsWord(otherCommit) && '\t' !in date && NoLineBreak(date)
    requires date != [] && !IsSpace(date[|date| - 1]) && parseDate(date).Some?
    ensures GetAllRefs(JoinLines([RefLine(mainCommit, "refs/heads/main", date),
                                  RefLine(otherCommit, "refs/heads/experiment", date)]), parseDate)
            == Stream([GitRef("main", mainCommit, "heads", false, "refs/heads/main", parseDate(date).value),
                       GitRef("experiment", otherCommit, "heads", false, "refs/heads/experiment", parseDate(date).value)],
                      None)
  {
    assert "refs/heads/main" == RefPath("heads", "main");
    assert "refs/heads/experiment" == RefPath("heads", "experiment");
    assert IsWord("main") && IsWord("experiment");
    ListingOfTwoBranches(mainCommit, "main", otherCommit, "experiment", date, parseDate);
  }

  /** A listing of two local branches yields both, in order. */
  lemma ListingOfTwoBranches(c1: string, n1: string, c2: string, n2: string, date: string, parseDate: DateParser)
    requires IsWord(c1) && IsWord(n1) && IsWord(c2) && IsWord(n2)
    requires '\t' !in date && NoLineBreak(date) && date != [] && !IsSpace(date[|date| - 1]) && parseDate(date).Some?
    ensures GetAllRefs(JoinLines([RefLine(c1, RefPath("heads", n1), date), RefLine(c2, RefPath("heads", n2), date)]),
                       parseDate)
            == Stream([GitRef(n1, c1, "heads", false, RefPath("heads", n1), parseDate(date).value),
                       GitRef(n2, c2, "heads", false, RefPath("heads", n2), parseDate(date).value)],
                      None)
  {
    BranchRefNoLineBreak(n1);
    BranchRefNoLineBreak(n2);
    RefLineNoLineBreak(c1, RefPath("heads", n1), date);
    RefLineNoLineBreak(c2, RefPath("heads", n2), date);
    ParseBranchLine(c1, n1, date, parseDate);
    ParseBranchLine(c2, n2, date, parseDate);
    ListingOfTwo(RefLine(c1, RefPath("heads", n1), date), RefLine(c2, RefPath("heads", n2), date),
                 GitRef(n1, c1, "heads", false, RefPath("heads", n1), parseDate(date).value),
                 GitRef(n2, c2, "heads", false, RefPath("heads", n2), parseDate(date).value),
                 parseDate);
  }

  lemma BranchRefNoLineBreak(name: string)
    requires NoLineBreak(name)
    ensures NoLineBreak(RefPath("heads", name))
  {
    var p := RefPath("heads", name);
    assert p == "refs/heads/" + name;
    forall i | 0 <= i < |p| ensures !IsLineBreak(p[i]) {
      if i >= 11 {
        assert p[i] == name[i - 11];
      }
    }
  }

  lemma RefLineNoLineBreak(commit: string, refname: string, date: string)
    requires IsWord(commit) && NoLineBreak(refname) && NoLineBreak(date)
    ensures NoLineBreak(RefLine(commit, refname, date))
  {
    var line := RefLine(commit, refname, date);
    forall i | 0 <= i < |line| ensures !IsLineBreak(line[i]) {
      if i < |commit| {
        assert line[i] == commit[i];
        assert !IsSpace(commit[i]);
      }
    }
  }

  lemma FilterMainOnly(main: GitRef, experiment: GitRef, matches: Matcher, lsTree: LsTree, entry: TreeEntry)
    requires main.source == "heads" && main.name == "main"
    requires experiment.source == "heads" && experiment.name == "experiment"
    requires matches("main", "main") && !matches("main", "experiment")
    requires IsWord(entry.mode) && IsWord(entry.kind) && IsWord(entry.objectName)
    requires lsTree(main.refname) == LsTreeLine(entry) && lsTree(experiment.refname) == ""
    ensures FilterRefs([main, experiment], Whitelists(None, Some("main"), None), matches, lsTree, entry.objectName)
            == Stream([main], None)
  {
    var wl := Whitelists(None, Some("main"), None);
    SubmoduleExistsOnEntry(entry, entry.objectName);
    assert RefStep(main, wl, matches, lsTree, entry.objectName) == Yield(main);
    assert RefStep(experiment, wl, matches, lsTree, entry.objectName) == Skip;
    assert RefSteps([main, experiment], wl, matches, lsTree, entry.objectName) == [Yield(main), Skip];
    assert [Yield(main), Skip][1..] == [Skip];
    assert [Skip][1..] == [];
    assert Run([Skip]) == Stream([], None);
  }

  /** A listing of two parsed lines without line breaks yields their two refs. */
  lemma ListingOfTwo(l1: string, l2: string, r1: GitRef, r2: GitRef, parseDate: DateParser)
    requires NoLineBreak(l1) && NoLineBreak(l2)
    requires ParseLine(l1, parseDate) == Parsed(r1) && ParseLine(l2, parseDate) == Parsed(r2)
    ensures GetAllRefs(JoinLines([l1, l2]), parseDate) == Stream([r1, r2], None)
  {
    GetAllRefsOfLines([l1, l2], parseDate);
    LineStepsOfTwo(l1, l2, parseDate);
    RunOfTwoYields(r1, r2);
  }

  /** Lines without line breaks, each written with its "\n", are listed back as they are. */
  lemma GetAllRefsOfLines(lines: seq<string>, parseDate: DateParser)
    requires forall i | 0 <= i < |lines| :: NoLineBreak(lines[i])
    ensures GetAllRefs(JoinLines(lines), parseDate) == ParseLines(lines, parseDate)
  {
    SplitJoinLines(lines);
  }

  lemma RunOfTwoYields(r1: GitRef, r2: GitRef)
    ensures Run([Yield(r1), Yield(r2)]) == Stream([r1, r2], None)
  {
    assert [Yield(r1), Yield(r2)][1..] == [Yield(r2)];
  }

  lemma LineStepsOfTwo(l1: string, l2: string, parseDate: DateParser)
    ensures LineSteps([l1, l2], parseDate) == [LineStep(ParseLine(l1, parseDate)), LineStep(ParseLine(l2, parseDate))]
  {
    assert [l1, l2][1..] == [l2];
  }

  // ================================================================ get_toplevel_path

  /** `get_toplevel_path`: the last whitespace-separated token of `rev-parse` output, None for IndexError. */
  function GetToplevelPath(output: string): (r: Option<string>)
    ensures r.None? <==> AllSpace(output)
    ensures r.Some? ==> IsWord(r.value)
  {
    TokensSpec(output);
    var tokens := Tokens(output);
    if tokens == [] then None else Some(tokens[|tokens| - 1])
  }

  /** `split()[-1]` is the last word of the output, whatever whitespace surrounds it. */
  lemma ToplevelIsLastWord(a: string, w: string, b: string)
    requires a == [] || IsSpace(a[|a| - 1])
    requires IsWord(w) && AllSpace(b)
    ensures GetToplevelPath(a + w + b) == Some(w)
  {
    TokensOfPaddedWord(w, b);
    if a == [] {
      assert a + w + b == w + b;
    } else {
      var front := a[..|a| - 1];
      assert a + w + b == front + [a[|a| - 1]] + (w + b);
      TokensSplitAt(front, a[|a| - 1], w + b);
    }
  }

  /** Outside a submodule `rev-parse` prints one line, the repository's own toplevel path. */
  lemma ToplevelOneLine(toplevel: string)
    requires IsWord(toplevel)
    ensures GetToplevelPath(JoinLines([toplevel])) == Some(toplevel)
  {
    assert [toplevel][1..] == [];
    assert JoinLines([toplevel]) == [] + toplevel + "\n";
    ToplevelIsLastWord([], toplevel, "\n");
  }

  /** Inside a submodule the superproject's path is printed second, and it is the one returned. */
  lemma ToplevelTwoLines(toplevel: string, superproject: string)
    requires IsWord(toplevel) && IsWord(superproject)
    ensures GetToplevelPath(JoinLines([toplevel, superproject])) == Some(superproject)
  {
    assert [toplevel, superproject][1..] == [superproject];
    assert [superproject][1..] == [];
    assert JoinLines([superproject]) == superproject + "\n" + "";
    assert JoinLines([toplevel, superproject]) == (toplevel + "\n") + superproject + "\n";
    ToplevelIsLastWord(toplevel + "\n", superproject, "\n");
  }

  /** A toplevel directory whose path contains a space comes back cut at that space. */
  lemma ToplevelPathCutAtSpace(parent: string, dir: string)
    requires IsWord(parent) && IsWord(dir)
    ensures GetToplevelPath(JoinLines([parent + " " + dir])) == Some(dir)
  {
    var line := parent + " " + dir;
    assert JoinLines([line]) == parent + [' '] + (dir + "\n");
    TokensSplitAt(parent, ' ', dir + "\n");
    assert dir + "\n" == dir + ['\n'] + [];
    TokensSplitAt(dir, '\n', []);
    TokensOfWord(parent);
    TokensOfWord(dir);
  }

  /** The path the comment in `get_toplevel_path` describes: the last line of the output. */
  function GetToplevelPathByLine(output: string): (r: Option<string>)
    ensures r.Some? ==> NoLineBreak(r.value)
  {
    var lines := SplitLines(output);
    if lines == [] then None else Some(lines[|lines| - 1])
  }

  /** The last line is the superproject's path when it is printed, the repository's otherwise, spaces and all. */
  lemma ToplevelPathByLineIsLastLine(toplevel: string, superproject: Option<string>)
    requires NoLineBreak(toplevel) && (superproject.Some? ==> NoLineBreak(superproject.value))
    ensures var lines := if superproject.Some? then [toplevel, superproject.value] else [toplevel];
      GetToplevelPathByLine(JoinLines(lines)) == Some(if superproject.Some? then superproject.value else toplevel)
  {
    var lines := if superproject.Some? then [toplevel, superproject.value] else [toplevel];
    SplitJoinLines(lines);
  }

  // ================================================================ file_exists

  /** The path `file_exists` hands to git: every platform separator `sep` rewritten to "/". */
  function GitPath(filename: string, sep: char): (p: string)
    ensures |p| == |filename|
    ensures forall i | 0 <= i < |filename| :: p[i] == if filename[i] == sep then '/' else filename[i]
  {
    if sep != '/' then Replace(filename, sep, '/') else filename
  }

  /** The object `git cat-file -e` is asked about: `"{}:{}".format(refname, filename)`. */
  function CatFileObject(refname: string, filename: string, sep: char): (obj: string)
    ensures |obj| == |refname| + 1 + |filename|
    ensures obj[..|refname| + 1] == refname + ":" && obj[|refname| + 1..] == GitPath(filename, sep)
    ensures ':' !in refname ==> AfterFirst(obj, ':') == GitPath(filename, sep)
  {
    var obj := refname + ":" + GitPath(filename, sep);
    assert ':' !in refname ==> AfterFirst(obj, ':') == GitPath(filename, sep) by {
      if ':' !in refname {
        AfterFirstAt(refname, ':', GitPath(filename, sep));
      }
    }
    obj
  }

  /** After the rewrite only "/" separates path components, and rewriting again changes nothing. */
  lemma GitPathNormal(filename: string, sep: char)
    ensures sep != '/' ==> sep !in GitPath(filename, sep)
    ensures GitPath(GitPath(filename, sep), sep) == GitPath(filename, sep)
  {
  }
}
