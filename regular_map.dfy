/**
 * Day 20 (20/src/shared.rs): the facility's map is given as a regular
 * expression over the directions N, E, S and W, with groups `(a|b|...)`
 * for alternatives.  The expression is parsed into a tree of paths:
 * runs of directions, sequences of segments and branches.  Each path
 * carves rooms and doors into a grid of walls; a path's size, measured
 * up front, decides how large that grid is.
 *
 * The parsers read from an iterator they advance in place, modelled by
 * the class `Chars` (the text and the position of the next character).
 */
module RegularMap {
  import opened Wrappers
  import opened Coordinates

  datatype Direction = North | East | South | West

  datatype MapFeature = Room | Door | Wall

  /** `PathSegments`, `Branch` and `StaticPath`. */
  datatype Path =
    | Segments(segments: seq<Path>)
    | Branch(branches: seq<Path>)
    | Static(path: seq<Direction>)

  // ---------------------------------------------------------------------
  // The parser, as functions of the text and a position
  // ---------------------------------------------------------------------

  /** The direction a character names, if it names one. */
  function DirectionOf(c: char): Option<Direction>
  {
    match c
      case 'N' => Some(North)
      case 'E' => Some(East)
      case 'S' => Some(South)
      case 'W' => Some(West)
      case _ => None
  }

  /** `Display` for a direction: the first letter of its name. */
  function Letter(d: Direction): char
  {
    match d
      case North => 'N'
      case East => 'E'
      case South => 'S'
      case West => 'W'
  }

  /** A direction's letter names it, and only a direction's letter names a direction. */
  lemma LetterNames(d: Direction, c: char)
    ensures DirectionOf(Letter(d)) == Some(d)
    ensures DirectionOf(c) == Some(d) ==> c == Letter(d)
  {
  }

  /**
   * `parse_static`: the directions of the run starting at `i`, and the
   * position after it.  The run is maximal: it ends at the end of the
   * text or at a character that is not a direction.
   */
  function ParseStatic(s: seq<char>, i: nat): (r: (seq<Direction>, nat))
    requires i <= |s|
    ensures i <= r.1 <= |s| && |r.0| == r.1 - i
    ensures forall k :: 0 <= k < |r.0| ==> DirectionOf(s[i + k]) == Some(r.0[k])
    ensures r.1 == |s| || DirectionOf(s[r.1]).None?
    decreases |s| - i
  {
    if i < |s| && DirectionOf(s[i]).Some? then
      var rest := ParseStatic(s, i + 1);
      ([DirectionOf(s[i]).value] + rest.0, rest.1)
    else
      ([], i)
  }

  /** A single segment or alternative is used as it is; otherwise the list is wrapped. */
  function WrapSegments(segments: seq<Path>): Path
  {
    if |segments| == 1 then segments[0] else Segments(segments)
  }

  function WrapBranches(branches: seq<Path>): Path
  {
    if |branches| == 1 then branches[0] else Branch(branches)
  }

  /**
   * `parse_path` from position `i`: the path and the position after it,
   * or None where the text runs out under `peek().unwrap()`.
   */
  function ParsePath(s: seq<char>, i: nat): (r: Option<(Path, nat)>)
    requires i <= |s|
    ensures r.Some? ==> i <= r.value.1 <= |s|
    decreases |s| - i, 3
  {
    ParseSegments(s, i, [])
  }

  /** The loop of `parse_path`, with the segments read so far. */
  function ParseSegments(s: seq<char>, i: nat, segments: seq<Path>): (r: Option<(Path, nat)>)
    requires i <= |s|
    ensures r.Some? ==> i <= r.value.1 <= |s|
    decreases |s| - i, 2
  {
    if i == |s| then None
    else if s[i] == '(' then
      match ParseBranch(s, i)
        case None => None
        case Some((branch, j)) => ParseSegments(s, j, segments + [branch])
    else if DirectionOf(s[i]).Some? then
      var (run, j) := ParseStatic(s, i);
      ParseSegments(s, j, segments + [Static(run)])
    else
      Some((WrapSegments(segments), i))
  }

  /** `parse_branch` at an opening parenthesis. */
  function ParseBranch(s: seq<char>, i: nat): (r: Option<(Path, nat)>)
    requires i < |s| && s[i] == '('
    ensures r.Some? ==> i < r.value.1 <= |s|
    decreases |s| - i, 1
  {
    match ParsePath(s, i + 1)
      case None => None
      case Some((first, j)) => ParseAlternatives(s, j, [first])
  }

  /**
   * The loop of `parse_branch`, with the alternatives read so far: a `|`
   * is followed by another alternative; a `)`, or any other character,
   * ends the group and is consumed.
   */
  function ParseAlternatives(s: seq<char>, j: nat, branches: seq<Path>): (r: Option<(Path, nat)>)
    requires j <= |s|
    ensures r.Some? ==> j < r.value.1 <= |s|
    decreases |s| - j, 0
  {
    if j == |s| then None
    else if s[j] == '|' then
      match ParsePath(s, j + 1)
        case None => None
        case Some((alternative, k)) => ParseAlternatives(s, k, branches + [alternative])
    else
      Some((WrapBranches(branches), j + 1))
  }

  /** `parse_input`: the first character (the `^`) is skipped. */
  function ParseInput(s: seq<char>): Option<Path>
  {
    if s == [] then None
    else
      match ParsePath(s, 1)
        case None => None
        case Some((path, _)) => Some(path)
  }

  // ---------------------------------------------------------------------
  // Display
  // ---------------------------------------------------------------------

  function Letters(ds: seq<Direction>): (r: string)
    ensures |r| == |ds|
  {
    if ds == [] then [] else [Letter(ds[0])] + Letters(ds[1..])
  }

  /** `Display`: segments in order, a branch as `(a|b|...)`, a run as its letters. */
  function Print(p: Path): string
    decreases p, 1
  {
    match p
      case Segments(segments) => PrintAll(p, 0)
      case Branch(branches) => "(" + (if branches == [] then "" else PrintAlternatives(p, 0)) + ")"
      case Static(path) => Letters(path)
  }

  /** The segments of `p` from the `k`-th on, one after the other. */
  function PrintAll(p: Path, k: nat): string
    requires p.Segments? && k <= |p.segments|
    decreases p, 0, |p.segments| - k
  {
    if k == |p.segments| then "" else Print(p.segments[k]) + PrintAll(p, k + 1)
  }

  /** The alternatives of `p` from the `k`-th on, separated by `|`. */
  function PrintAlternatives(p: Path, k: nat): string
    requires p.Branch? && k < |p.branches|
    decreases p, 0, |p.branches| - k
  {
    if k == |p.branches| - 1 then Print(p.branches[k])
    else Print(p.branches[k]) + "|" + PrintAlternatives(p, k + 1)
  }

  // ---------------------------------------------------------------------
  // Printing a parse reproduces its text
  // ---------------------------------------------------------------------

  /**
   * The paths the parser builds from a text whose every group has two or
   * more alternatives: runs are non-empty, a sequence is never of one
   * segment, holds only runs and groups and never two runs in a row,
   * and a group has at least two alternatives.
   */
  ghost predicate Normal(p: Path)
    decreases p
  {
    match p
      case Static(path) => |path| >= 1
      case Segments(segments) =>
        |segments| != 1 &&
        (forall k :: 0 <= k < |segments| ==> !segments[k].Segments? && Normal(segments[k])) &&
        (forall a, b :: 0 <= a < b < |segments| && b == a + 1 ==> !(segments[a].Static? && segments[b].Static?))
      case Branch(branches) =>
        |branches| >= 2 && forall k :: 0 <= k < |branches| ==> Normal(branches[k])
  }

  /** A character that ends a path: neither a direction nor an opening parenthesis. */
  predicate Stops(c: char)
  {
    DirectionOf(c).None? && c != '('
  }

  /** Moving the `k`-th element of `xs` onto the end of `read`. */
  lemma ShiftOne<T>(read: seq<T>, xs: seq<T>, k: nat)
    requires k < |xs|
    ensures read + xs[k..] == (read + [xs[k]]) + xs[k + 1..]
  {
    assert xs[k..] == [xs[k]] + xs[k + 1..];
  }

  /** The text `t` stands at position `i` of `s`, character by character. */
  predicate At(s: seq<char>, i: nat, t: string)
    decreases t
  {
    i + |t| <= |s| && (t == [] || (s[i] == t[0] && At(s, i + 1, t[1..])))
  }

  lemma {:induction false} SplitAt(s: seq<char>, i: nat, a: string, b: string)
    requires At(s, i, a + b)
    ensures At(s, i, a) && At(s, i + |a|, b)
    decreases a
  {
    if a == [] {
      assert a + b == b;
    } else {
      assert (a + b)[1..] == a[1..] + b;
      SplitAt(s, i + 1, a[1..], b);
    }
  }

  lemma {:induction false} JoinAt(s: seq<char>, i: nat, a: string, b: string)
    requires At(s, i, a) && At(s, i + |a|, b)
    ensures At(s, i, a + b)
    decreases a
  {
    if a == [] {
      assert a + b == b;
    } else {
      assert (a + b)[1..] == a[1..] + b;
      JoinAt(s, i + 1, a[1..], b);
    }
  }

  /** The first character of a text standing at `i` is `s[i]`. */
  lemma AtFirst(s: seq<char>, i: nat, t: string)
    requires At(s, i, t) && t != []
    ensures i < |s| && s[i] == t[0]
  {
  }

  /** A slice of `s` stands where it was cut. */
  lemma {:induction false} SliceAt(s: seq<char>, i: nat, j: nat)
    requires i <= j <= |s|
    ensures At(s, i, s[i..j])
    decreases j - i
  {
    if i < j {
      assert s[i..j][1..] == s[i + 1..j];
      SliceAt(s, i + 1, j);
    }
  }

  /** A run's letters, followed by anything but a direction, parse back to the run. */
  lemma {:induction false} StaticRun(s: seq<char>, i: nat, path: seq<Direction>)
    requires At(s, i, Letters(path)) && (i + |path| == |s| || DirectionOf(s[i + |path|]).None?)
    ensures ParseStatic(s, i) == (path, i + |path|)
    decreases path
  {
    if path != [] {
      assert Letters(path)[1..] == Letters(path[1..]);
      StaticRun(s, i + 1, path[1..]);
      assert [path[0]] + path[1..] == path;
    }
  }

  // One step of each parser loop, stated on its own so that the proofs
  // below never unfold the parser themselves.

  lemma StepStatic(s: seq<char>, i: nat, read: seq<Path>, path: seq<Direction>)
    requires |path| >= 1 && At(s, i, Letters(path))
    requires i + |path| == |s| || DirectionOf(s[i + |path|]).None?
    ensures ParseSegments(s, i, read) == ParseSegments(s, i + |path|, read + [Static(path)])
  {
    StaticRun(s, i, path);
  }

  lemma StepBranch(s: seq<char>, i: nat, read: seq<Path>, branch: Path, j: nat)
    requires i < |s| && s[i] == '(' && ParseBranch(s, i) == Some((branch, j))
    ensures ParseSegments(s, i, read) == ParseSegments(s, j, read + [branch])
  {
  }

  lemma StepEnd(s: seq<char>, i: nat, read: seq<Path>)
    requires i < |s| && Stops(s[i])
    ensures ParseSegments(s, i, read) == Some((WrapSegments(read), i))
  {
  }

  lemma StepOpen(s: seq<char>, i: nat, first: Path, j: nat)
    requires i < |s| && s[i] == '(' && ParsePath(s, i + 1) == Some((first, j))
    ensures ParseBranch(s, i) == ParseAlternatives(s, j, [first])
  {
  }

  lemma StepBar(s: seq<char>, j: nat, read: seq<Path>, alternative: Path, k: nat)
    requires j < |s| && s[j] == '|' && ParsePath(s, j + 1) == Some((alternative, k))
    ensures ParseAlternatives(s, j, read) == ParseAlternatives(s, k, read + [alternative])
  {
  }

  lemma StepClose(s: seq<char>, j: nat, read: seq<Path>)
    requires j < |s| && s[j] == ')'
    ensures ParseAlternatives(s, j, read) == Some((WrapBranches(read), j + 1))
  {
  }

  /** A printed group starts with `(`. */
  lemma OpensGroup(s: seq<char>, i: nat, p: Path)
    requires p.Branch? && At(s, i, Print(p))
    ensures i < |s| && s[i] == '('
  {
  }

  /**
   * A normal path printed and followed by a character that ends it is
   * parsed back to itself, ending just after its text.
   */
  lemma {:induction false} ParsePrint(p: Path, s: seq<char>, i: nat)
    requires Normal(p) && At(s, i, Print(p)) && i + |Print(p)| < |s| && Stops(s[i + |Print(p)|])
    ensures ParsePath(s, i) == Some((p, i + |Print(p)|))
    decreases p, 3, 0, 0
  {
    var end := i + |Print(p)|;
    match p
      case Static(path) =>
        StepStatic(s, i, [], path);
        StepEnd(s, end, [p]);
      case Branch(branches) =>
        ParsePrintBranch(p, s, i);
        OpensGroup(s, i, p);
        StepBranch(s, i, [], p, end);
        StepEnd(s, end, [p]);
      case Segments(segments) =>
        assert Print(p) == PrintAll(p, 0);
        ParsePrintSegments(p, 0, s, i, []);
        assert [] + segments[0..] == segments;
  }

  /** The segments of `p` from the `k`-th on, printed, parse after the segments already read. */
  lemma {:induction false} ParsePrintSegments(p: Path, k: nat, s: seq<char>, i: nat, read: seq<Path>)
    requires p.Segments? && Normal(p) && k <= |p.segments|
    requires At(s, i, PrintAll(p, k)) && i + |PrintAll(p, k)| < |s| && Stops(s[i + |PrintAll(p, k)|])
    ensures ParseSegments(s, i, read) == Some((WrapSegments(read + p.segments[k..]), i + |PrintAll(p, k)|))
    decreases p, 2, |p.segments| - k, 1
  {
    var segments := p.segments;
    if k == |segments| {
      StepEnd(s, i, read);
      assert read + segments[k..] == read;
    } else {
      var segment := segments[k];
      var j := i + |Print(segment)|;
      SegmentStep(p, k, s, i, read);
      ParsePrintSegments(p, k + 1, s, j, read + [segment]);
      ShiftOne(read, segments, k);
    }
  }

  /** The `k`-th segment of `p`, printed, is read as one segment. */
  lemma {:induction false} SegmentStep(p: Path, k: nat, s: seq<char>, i: nat, read: seq<Path>)
    requires p.Segments? && Normal(p) && k < |p.segments|
    requires At(s, i, PrintAll(p, k)) && i + |PrintAll(p, k)| < |s| && Stops(s[i + |PrintAll(p, k)|])
    ensures PrintAll(p, k) == Print(p.segments[k]) + PrintAll(p, k + 1)
    ensures At(s, i + |Print(p.segments[k])|, PrintAll(p, k + 1))
    ensures ParseSegments(s, i, read) == ParseSegments(s, i + |Print(p.segments[k])|, read + [p.segments[k]])
    decreases p, 2, |p.segments| - k, 0
  {
    var segment := p.segments[k];
    assert Normal(segment) && !segment.Segments?;
    SplitAt(s, i, Print(segment), PrintAll(p, k + 1));
    if segment.Static? {
      RunStep(p, k, s, i, read);
    } else {
      ParsePrintBranch(segment, s, i);
      OpensGroup(s, i, segment);
      StepBranch(s, i, read, segment, i + |Print(segment)|);
    }
  }

  /** A run among the segments of `p` is read up to the group or the end that follows it. */
  lemma RunStep(p: Path, k: nat, s: seq<char>, i: nat, read: seq<Path>)
    requires p.Segments? && Normal(p) && k < |p.segments| && p.segments[k].Static?
    requires At(s, i, Print(p.segments[k])) && At(s, i + |Print(p.segments[k])|, PrintAll(p, k + 1))
    requires i + |PrintAll(p, k)| < |s| && Stops(s[i + |PrintAll(p, k)|])
    ensures ParseSegments(s, i, read) == ParseSegments(s, i + |Print(p.segments[k])|, read + [p.segments[k]])
  {
    var segments := p.segments;
    var path := segments[k].path;
    var j := i + |path|;
    if k + 1 < |segments| {
      var next := segments[k + 1];
      assert next.Branch?;
      assert PrintAll(p, k + 1) == Print(next) + PrintAll(p, k + 2);
      SplitAt(s, j, Print(next), PrintAll(p, k + 2));
      OpensGroup(s, j, next);
    } else {
      assert PrintAll(p, k + 1) == "";
    }
    StepStatic(s, i, read, path);
  }

  /** A printed group parses back to itself, ending just after its `)`. */
  lemma {:induction false} ParsePrintBranch(p: Path, s: seq<char>, i: nat)
    requires p.Branch? && Normal(p) && At(s, i, Print(p))
    ensures ParseBranch(s, i) == Some((p, i + |Print(p)|))
    decreases p, 1, 0, 0
  {
    var branches := p.branches;
    var first := Print(branches[0]);
    var m := i + 1 + |first|;
    var tail := AlternativesAfter(p, 1);
    BranchPieces(p, s, i);
    assert At(s, i + 1, first) && m < |s| && Stops(s[m]);
    assert At(s, m, tail) && |Print(p)| == 1 + |first| + |tail|;
    assert Normal(branches[0]);
    ParsePrint(branches[0], s, i + 1);
    StepOpen(s, i, branches[0], m);
    ParsePrintAlternatives(p, 1, s, m, [branches[0]]);
    WrapAll(p);
    assert ParseBranch(s, i) == Some((WrapBranches([branches[0]] + branches[1..]), m + |tail|));
  }

  /** Where a group's print stands: `(`, then its first alternative, then what follows it, which stops the alternative. */
  lemma BranchPieces(p: Path, s: seq<char>, i: nat)
    requires p.Branch? && Normal(p) && At(s, i, Print(p))
    ensures var first := Print(p.branches[0]);
      var m := i + 1 + |first|;
      i < |s| && s[i] == '(' && At(s, i + 1, first) && At(s, m, AlternativesAfter(p, 1)) &&
      m < |s| && Stops(s[m]) && |Print(p)| == 1 + |first| + |AlternativesAfter(p, 1)|
  {
    var first := Print(p.branches[0]);
    var tail := AlternativesAfter(p, 1);
    PrintBranchSplit(p);
    SplitAt(s, i, "(", first + tail);
    AtFirst(s, i, "(");
    SplitAt(s, i + 1, first, tail);
    AfterStops(p, 1);
    AtFirst(s, i + 1 + |first|, tail);
  }

  /** What follows an alternative starts with `|` or `)`, which ends the alternative. */
  lemma AfterStops(p: Path, k: nat)
    requires p.Branch? && 1 <= k <= |p.branches|
    ensures |AlternativesAfter(p, k)| > 0 && Stops(AlternativesAfter(p, k)[0])
  {
  }

  /** A group prints as `(`, its first alternative, then what follows it. */
  lemma PrintBranchSplit(p: Path)
    requires p.Branch? && Normal(p)
    ensures Print(p) == "(" + (Print(p.branches[0]) + AlternativesAfter(p, 1))
  {
    assert PrintAlternatives(p, 0) == Print(p.branches[0]) + "|" + PrintAlternatives(p, 1);
  }

  /** Reading the first alternative and then the rest wraps back to the group. */
  lemma WrapAll(p: Path)
    requires p.Branch? && Normal(p)
    ensures WrapBranches([p.branches[0]] + p.branches[1..]) == p
  {
    assert [p.branches[0]] + p.branches[1..] == p.branches;
  }

  /** What follows the `k`-th alternative of `p`: each later one after its `|`, then `)`. */
  function AlternativesAfter(p: Path, k: nat): string
    requires p.Branch? && 1 <= k <= |p.branches|
  {
    (if k < |p.branches| then "|" + PrintAlternatives(p, k) else "") + ")"
  }

  /** The alternatives of `p` from the `k`-th on, and the closing `)`, parse after the alternatives already read. */
  lemma {:induction false} ParsePrintAlternatives(p: Path, k: nat, s: seq<char>, j: nat, read: seq<Path>)
    requires p.Branch? && Normal(p) && 1 <= k <= |p.branches|
    requires At(s, j, AlternativesAfter(p, k))
    ensures ParseAlternatives(s, j, read) == Some((WrapBranches(read + p.branches[k..]), j + |AlternativesAfter(p, k)|))
    decreases p, 0, |p.branches| - k, 1
  {
    var branches := p.branches;
    if k == |branches| {
      AtFirst(s, j, ")");
      StepClose(s, j, read);
      assert read + branches[k..] == read;
    } else {
      AlternativeStep(p, k, s, j, read);
      ParsePrintAlternatives(p, k + 1, s, j + 1 + |Print(branches[k])|, read + [branches[k]]);
      ShiftOne(read, branches, k);
    }
  }

  /** The `k`-th alternative of `p`, after its `|`, is read as one alternative. */
  lemma {:induction false} AlternativeStep(p: Path, k: nat, s: seq<char>, j: nat, read: seq<Path>)
    requires p.Branch? && Normal(p) && 1 <= k < |p.branches|
    requires At(s, j, AlternativesAfter(p, k))
    ensures AlternativesAfter(p, k) == "|" + (Print(p.branches[k]) + AlternativesAfter(p, k + 1))
    ensures At(s, j + 1 + |Print(p.branches[k])|, AlternativesAfter(p, k + 1))
    ensures ParseAlternatives(s, j, read) == ParseAlternatives(s, j + 1 + |Print(p.branches[k])|, read + [p.branches[k]])
    decreases p, 0, |p.branches| - k, 0
  {
    var branches := p.branches;
    var text := Print(branches[k]);
    var after := AlternativesAfter(p, k + 1);
    if k + 1 < |branches| {
      assert PrintAlternatives(p, k) == text + "|" + PrintAlternatives(p, k + 1);
    } else {
      assert PrintAlternatives(p, k) == text && after == ")";
    }
    assert AlternativesAfter(p, k) == "|" + (text + after);
    SplitAt(s, j, "|", text + after);
    AtFirst(s, j, "|");
    SplitAt(s, j + 1, text, after);
    var m := j + 1 + |text|;
    AtFirst(s, m, after);
    assert Normal(branches[k]);
    ParsePrint(branches[k], s, j + 1);
    StepBar(s, j, read, branches[k], m);
  }

  /**
   * Printing the parse reproduces the input between the `^` and the
   * terminator, for every input that prints a normal path.
   */
  lemma PrintParse(p: Path, t: char)
    requires Normal(p) && Stops(t)
    ensures ParseInput(['^'] + Print(p) + [t]) == Some(p)
    ensures Print(ParseInput(['^'] + Print(p) + [t]).value) == Print(p)
  {
    var s := ['^'] + Print(p) + [t];
    assert s[1..1 + |Print(p)|] == Print(p);
    SliceAt(s, 1, 1 + |Print(p)|);
    assert s[1 + |Print(p)|] == t;
    ParsePrint(p, s, 1);
  }

  // ---------------------------------------------------------------------
  // The parser as written: recursive descent over a peekable iterator
  // ---------------------------------------------------------------------

  /** `Peekable<Chars>`: the text and the position of the next character. */
  class Chars {
    const text: seq<char>
    var pos: nat

    ghost predicate Valid()
      reads this
    {
      pos <= |text|
    }

    constructor (text: seq<char>)
      ensures Valid() && this.text == text && pos == 0
    {
      this.text := text;
      pos := 0;
    }

    /** `peek`: the next character, if the text has not run out. */
    function Peek(): (r: Option<char>)
      reads this
      requires Valid()
      ensures r.Some? <==> pos < |text|
      ensures r.Some? ==> r.value == text[pos]
    {
      if pos < |text| then Some(text[pos]) else None
    }

    /** `next`: the next character, consumed. */
    method Next() returns (c: Option<char>)
      modifies this
      requires Valid()
      ensures Valid() && c == old(Peek())
      ensures pos == if old(pos) < |text| then old(pos) + 1 else old(pos)
    {
      if pos < |text| {
        c := Some(text[pos]);
        pos := pos + 1;
      } else {
        c := None;
      }
    }
  }

  /** `parse_static`: reads the run of directions at the iterator. */
  method ReadStatic(input: Chars) returns (path: seq<Direction>)
    modifies input
    requires input.Valid()
    ensures input.Valid() && (path, input.pos) == ParseStatic(input.text, old(input.pos))
  {
    path := [];
    ghost var start := input.pos;
    assert [] + ParseStatic(input.text, start).0 == ParseStatic(input.text, start).0;
    while input.Peek().Some? && DirectionOf(input.Peek().value).Some?
      invariant input.Valid() && start <= input.pos
      invariant ParseStatic(input.text, start) == (path + ParseStatic(input.text, input.pos).0, ParseStatic(input.text, input.pos).1)
      decreases |input.text| - input.pos
    {
      var d := DirectionOf(input.Peek().value).value;
      ghost var rest := ParseStatic(input.text, input.pos + 1);
      assert ParseStatic(input.text, input.pos) == ([d] + rest.0, rest.1);
      assert path + ([d] + rest.0) == (path + [d]) + rest.0;
      path := path + [d];
      var _ := input.Next();
    }
    assert path + [] == path;
  }

  /**
   * `parse_path`: segments are read while the next character opens a
   * group or names a direction.  None where the text runs out, which the
   * source reports by panicking in `peek().unwrap()`.
   */
  method ReadPath(input: Chars) returns (r: Option<Path>)
    modifies input
    requires input.Valid()
    ensures input.Valid()
    ensures ParsePath(input.text, old(input.pos)) == if r.Some? then Some((r.value, input.pos)) else None
    decreases |input.text| - input.pos, 2
  {
    ghost var start := input.pos;
    var segments := [];
    while true
      invariant input.Valid() && start <= input.pos
      invariant ParseSegments(input.text, input.pos, segments) == ParseSegments(input.text, start, [])
      decreases |input.text| - input.pos
    {
      var next := input.Peek();
      if next.None? {
        return None;
      }
      if next.value == '(' {
        ghost var at := input.pos;
        var branch := ReadBranch(input);
        if branch.None? {
          return None;
        }
        segments := segments + [branch.value];
        assert ParseSegments(input.text, at, segments[..|segments| - 1]) == ParseSegments(input.text, input.pos, segments);
      } else if DirectionOf(next.value).Some? {
        ghost var at := input.pos;
        var path := ReadStatic(input);
        assert ParseSegments(input.text, at, segments) == ParseSegments(input.text, input.pos, segments + [Static(path)]);
        segments := segments + [Static(path)];
      } else {
        break;
      }
    }
    r := Some(WrapSegments(segments));
  }

  /**
   * `parse_branch` at an opening parenthesis: alternatives separated by
   * `|`, up to a `)` or any other character, which is consumed.
   */
  method ReadBranch(input: Chars) returns (r: Option<Path>)
    modifies input
    requires input.Valid() && input.Peek() == Some('(')
    ensures input.Valid()
    ensures ParseBranch(input.text, old(input.pos)) == if r.Some? then Some((r.value, input.pos)) else None
    decreases |input.text| - input.pos, 1
  {
    ghost var start := input.pos;
    var _ := input.Next();
    var first := ReadPath(input);
    if first.None? {
      return None;
    }
    var branches := [first.value];
    while true
      invariant input.Valid() && start < input.pos
      invariant ParseAlternatives(input.text, input.pos, branches) == ParseBranch(input.text, start)
      decreases |input.text| - input.pos
    {
      var next := input.Peek();
      if next.None? {
        return None;
      }
      if next.value == '|' {
        ghost var at := input.pos;
        var _ := input.Next();
        var alternative := ReadPath(input);
        if alternative.None? {
          return None;
        }
        assert ParseAlternatives(input.text, at, branches) == ParseAlternatives(input.text, input.pos, branches + [alternative.value]);
        branches := branches + [alternative.value];
      } else {
        break;
      }
    }
    var _ := input.Next();
    r := Some(WrapBranches(branches));
  }

  /** `parse_input`: the first character is skipped, the rest read as a path. */
  method ReadInput(contents: seq<char>) returns (r: Option<Path>)
    ensures r == ParseInput(contents)
  {
    var input := new Chars(contents);
    var _ := input.Next();
    var path := ReadPath(input);
    r := path;
  }

  // ---------------------------------------------------------------------
  // What a path carves: rooms, doors and the rooms it ends in
  // ---------------------------------------------------------------------

  /** The step each direction takes (`inc` in `build_map`); north is up, towards smaller y. */
  function Offset(d: Direction): Loci
  {
    match d
      case North => Loci(0, -1)
      case East => Loci(1, 0)
      case South => Loci(0, 1)
      case West => Loci(-1, 0)
  }

  /** The net displacement, in steps on the grid, after the first `k` directions of a run. */
  function Disp(path: seq<Direction>, k: nat): Loci
    requires k <= |path|
  {
    Loci(Net(path, k).1, -Net(path, k).0)
  }

  /** Each direction moves one step by its offset. */
  lemma DispStep(path: seq<Direction>, k: nat)
    requires 0 < k <= |path|
    ensures Disp(path, k) == AddLoci(Disp(path, k - 1), Offset(path[k - 1]))
  {
  }

  /** The room reached after `k` directions: every direction crosses a door into the next room. */
  function Position(start: Loci, path: seq<Direction>, k: nat): Loci
    requires k <= |path|
  {
    Loci(start.x + 2 * Disp(path, k).x, start.y + 2 * Disp(path, k).y)
  }

  /** The door crossed by the `k`-th direction, halfway between two rooms. */
  function DoorAt(start: Loci, path: seq<Direction>, k: nat): Loci
    requires k < |path|
  {
    Loci(start.x + Disp(path, k).x + Disp(path, k + 1).x, start.y + Disp(path, k).y + Disp(path, k + 1).y)
  }

  /** The rooms entered by the first `i` directions. */
  function RoomsUpTo(start: Loci, path: seq<Direction>, i: nat): set<Loci>
    requires i <= |path|
  {
    if i == 0 then {} else RoomsUpTo(start, path, i - 1) + {Position(start, path, i)}
  }

  /** The doors crossed by the first `i` directions. */
  function DoorsUpTo(start: Loci, path: seq<Direction>, i: nat): set<Loci>
    requires i <= |path|
  {
    if i == 0 then {} else DoorsUpTo(start, path, i - 1) + {DoorAt(start, path, i - 1)}
  }

  /** The rooms and doors a path carves and the rooms it can end in, from a set of start rooms. */
  datatype Trace = Trace(rooms: set<Loci>, doors: set<Loci>, ends: set<Loci>)

  function Join(a: Trace, b: Trace): Trace
  {
    Trace(a.rooms + b.rooms, a.doors + b.doors, a.ends + b.ends)
  }

  /**
   * `build_map` from every room of `starts`: a run walks from each start;
   * a sequence walks each segment from every end of the one before; a
   * group walks every alternative from the same starts.
   */
  function Walk(p: Path, starts: set<Loci>): Trace
    decreases p, 1
  {
    match p
      case Static(path) =>
        Trace(set s, r | s in starts && r in RoomsUpTo(s, path, |path|) :: r,
              set s, d | s in starts && d in DoorsUpTo(s, path, |path|) :: d,
              set s | s in starts :: Position(s, path, |path|))
      case Segments(segments) => WalkSegments(p, |segments|, starts)
      case Branch(branches) => WalkBranches(p, |branches|, starts)
  }

  /** The first `k` segments of a sequence, each walked from the ends of the one before. */
  function WalkSegments(p: Path, k: nat, starts: set<Loci>): Trace
    requires p.Segments? && k <= |p.segments|
    decreases p, 0, k
  {
    if k == 0 then Trace({}, {}, starts)
    else
      var before := WalkSegments(p, k - 1, starts);
      var last := Walk(p.segments[k - 1], before.ends);
      Trace(before.rooms + last.rooms, before.doors + last.doors, last.ends)
  }

  /** The first `k` alternatives of a group, each walked from the same starts. */
  function WalkBranches(p: Path, k: nat, starts: set<Loci>): Trace
    requires p.Branch? && k <= |p.branches|
    decreases p, 0, k
  {
    if k == 0 then Trace({}, {}, {})
    else Join(WalkBranches(p, k - 1, starts), Walk(p.branches[k - 1], starts))
  }

  const Nothing := Trace({}, {}, {})

  /** Walking from no room carves nothing. */
  lemma {:induction false} WalkNothing(p: Path)
    ensures Walk(p, {}) == Nothing
    decreases p, 1
  {
    match p
      case Static(_) =>
      case Segments(segments) => WalkSegmentsNothing(p, |segments|);
      case Branch(branches) => WalkBranchesNothing(p, |branches|);
  }

  lemma {:induction false} WalkSegmentsNothing(p: Path, k: nat)
    requires p.Segments? && k <= |p.segments|
    ensures WalkSegments(p, k, {}) == Nothing
    decreases p, 0, k
  {
    if k > 0 {
      WalkSegmentsNothing(p, k - 1);
      WalkNothing(p.segments[k - 1]);
    }
  }

  lemma {:induction false} WalkBranchesNothing(p: Path, k: nat)
    requires p.Branch? && k <= |p.branches|
    ensures WalkBranches(p, k, {}) == Nothing
    decreases p, 0, k
  {
    if k > 0 {
      WalkBranchesNothing(p, k - 1);
      WalkNothing(p.branches[k - 1]);
    }
  }

  /**
   * Walking from two sets of rooms carves what walking from each carves:
   * the start rooms are independent of each other, which is what lets
   * `build_map` walk them one at a time.
   */
  lemma {:induction false} WalkSplits(p: Path, a: set<Loci>, b: set<Loci>)
    ensures Walk(p, a + b) == Join(Walk(p, a), Walk(p, b))
    decreases p, 1
  {
    match p
      case Static(path) =>
        var n := |path|;
        assert Walk(p, a + b).rooms == Walk(p, a).rooms + Walk(p, b).rooms;
        assert Walk(p, a + b).doors == Walk(p, a).doors + Walk(p, b).doors;
        assert Walk(p, a + b).ends == Walk(p, a).ends + Walk(p, b).ends;
      case Segments(segments) => WalkSegmentsSplit(p, |segments|, a, b);
      case Branch(branches) => WalkBranchesSplit(p, |branches|, a, b);
  }

  lemma {:induction false} WalkSegmentsSplit(p: Path, k: nat, a: set<Loci>, b: set<Loci>)
    requires p.Segments? && k <= |p.segments|
    ensures WalkSegments(p, k, a + b) == Join(WalkSegments(p, k, a), WalkSegments(p, k, b))
    decreases p, 0, k
  {
    if k > 0 {
      WalkSegmentsSplit(p, k - 1, a, b);
      WalkSplits(p.segments[k - 1], WalkSegments(p, k - 1, a).ends, WalkSegments(p, k - 1, b).ends);
    }
  }

  lemma {:induction false} WalkBranchesSplit(p: Path, k: nat, a: set<Loci>, b: set<Loci>)
    requires p.Branch? && k <= |p.branches|
    ensures WalkBranches(p, k, a + b) == Join(WalkBranches(p, k, a), WalkBranches(p, k, b))
    decreases p, 0, k
  {
    if k > 0 {
      WalkBranchesSplit(p, k - 1, a, b);
      WalkSplits(p.branches[k - 1], a, b);
    }
  }

  /** A room's coordinates differ from the first room's by even amounts. */
  predicate Even(origin: Loci, l: Loci)
  {
    (l.x - origin.x) % 2 == 0 && (l.y - origin.y) % 2 == 0
  }

  /** A door sits between two rooms: exactly one of its coordinates is an odd distance from the first room. */
  predicate Between(origin: Loci, l: Loci)
  {
    (l.x - origin.x) % 2 != (l.y - origin.y) % 2
  }

  /** Rooms and ends on even positions, doors between them. */
  ghost predicate Parity(origin: Loci, t: Trace)
  {
    (forall l :: l in t.rooms ==> Even(origin, l)) &&
    (forall l :: l in t.ends ==> Even(origin, l)) &&
    (forall l :: l in t.doors ==> Between(origin, l))
  }

  lemma {:induction false} RunParity(origin: Loci, start: Loci, path: seq<Direction>, i: nat)
    requires Even(origin, start) && i <= |path|
    ensures Even(origin, Position(start, path, i))
    ensures forall l :: l in RoomsUpTo(start, path, i) ==> Even(origin, l)
    ensures forall l :: l in DoorsUpTo(start, path, i) ==> Between(origin, l)
  {
    if i > 0 {
      RunParity(origin, start, path, i - 1);
      DispStep(path, i);
      var before := Disp(path, i - 1);
      var step := Offset(path[i - 1]);
      assert DoorAt(start, path, i - 1) == Loci(start.x + 2 * before.x + step.x, start.y + 2 * before.y + step.y);
    }
  }

  /** Every path keeps rooms on even positions and doors between them, so no door is ever painted over a room. */
  lemma {:induction false} WalkParity(p: Path, origin: Loci, starts: set<Loci>)
    requires forall s :: s in starts ==> Even(origin, s)
    ensures Parity(origin, Walk(p, starts))
    decreases p, 1
  {
    match p
      case Static(path) =>
        forall s | s in starts
          ensures Even(origin, Position(s, path, |path|))
          ensures forall l :: l in RoomsUpTo(s, path, |path|) ==> Even(origin, l)
          ensures forall l :: l in DoorsUpTo(s, path, |path|) ==> Between(origin, l)
        {
          RunParity(origin, s, path, |path|);
        }
      case Segments(segments) => SegmentsParity(p, |segments|, origin, starts);
      case Branch(branches) => BranchesParity(p, |branches|, origin, starts);
  }

  lemma {:induction false} SegmentsParity(p: Path, k: nat, origin: Loci, starts: set<Loci>)
    requires p.Segments? && k <= |p.segments|
    requires forall s :: s in starts ==> Even(origin, s)
    ensures Parity(origin, WalkSegments(p, k, starts))
    decreases p, 0, k
  {
    if k > 0 {
      SegmentsParity(p, k - 1, origin, starts);
      WalkParity(p.segments[k - 1], origin, WalkSegments(p, k - 1, starts).ends);
    }
  }

  lemma {:induction false} BranchesParity(p: Path, k: nat, origin: Loci, starts: set<Loci>)
    requires p.Branch? && k <= |p.branches|
    requires forall s :: s in starts ==> Even(origin, s)
    ensures Parity(origin, WalkBranches(p, k, starts))
    decreases p, 0, k
  {
    if k > 0 {
      BranchesParity(p, k - 1, origin, starts);
      WalkParity(p.branches[k - 1], origin, starts);
    }
  }

  // ---------------------------------------------------------------------
  // How far a path reaches, which decides the size of the grid
  // ---------------------------------------------------------------------

  /**
   * `max_distance`, given what it takes a run to be: the segments of a
   * sequence add up and the alternatives of a group take the larger,
   * each as (up/down, left/right) in rooms.
   */
  function Size(p: Path, run: seq<Direction> -> (nat, nat)): (nat, nat)
    decreases p, 1
  {
    match p
      case Static(path) => run(path)
      case Segments(segments) => SizeSegments(p, |segments|, run)
      case Branch(branches) => SizeBranches(p, |branches|, run)
  }

  /** The fold over the first `k` segments. */
  function SizeSegments(p: Path, k: nat, run: seq<Direction> -> (nat, nat)): (nat, nat)
    requires p.Segments? && k <= |p.segments|
    decreases p, 0, k
  {
    if k == 0 then (0, 0)
    else
      var before := SizeSegments(p, k - 1, run);
      var last := Size(p.segments[k - 1], run);
      (before.0 + last.0, before.1 + last.1)
  }

  /** The fold over the first `k` alternatives. */
  function SizeBranches(p: Path, k: nat, run: seq<Direction> -> (nat, nat)): (nat, nat)
    requires p.Branch? && k <= |p.branches|
    decreases p, 0, k
  {
    if k == 0 then (0, 0)
    else
      var before := SizeBranches(p, k - 1, run);
      var last := Size(p.branches[k - 1], run);
      (if before.0 < last.0 then last.0 else before.0, if before.1 < last.1 then last.1 else before.1)
  }

  /** The fold of `StaticPath::max_distance`: north and east count up, south and west down. */
  function Net(path: seq<Direction>, k: nat): (int, int)
    requires k <= |path|
  {
    if k == 0 then (0, 0)
    else
      var (ud, lr) := Net(path, k - 1);
      match path[k - 1]
        case North => (ud + 1, lr)
        case East => (ud, lr + 1)
        case South => (ud - 1, lr)
        case West => (ud, lr - 1)
  }

  /** `StaticPath::max_distance` as written: how far the run ends from where it starts. */
  function NetSize(path: seq<Direction>): (nat, nat)
  {
    (Abs(Net(path, |path|).0), Abs(Net(path, |path|).1))
  }

  /** How far the first `k` directions of a run stray from its start, at the farthest. */
  function Reach(path: seq<Direction>, k: nat): (nat, nat)
    requires k <= |path|
  {
    if k == 0 then (0, 0)
    else
      var before := Reach(path, k - 1);
      var d := Disp(path, k);
      (if before.0 < Abs(d.y) then Abs(d.y) else before.0, if before.1 < Abs(d.x) then Abs(d.x) else before.1)
  }

  function ReachSize(path: seq<Direction>): (nat, nat)
  {
    Reach(path, |path|)
  }

  /** `max_distance` as written. */
  function MaxDistance(p: Path): (nat, nat)
  {
    Size(p, NetSize)
  }

  /** `max_distance` with a run measured by its farthest room, which the grid needs. */
  function MaxReach(p: Path): (nat, nat)
  {
    Size(p, ReachSize)
  }

  /** Every room of a run lies within its reach. */
  lemma {:induction false} ReachBounds(path: seq<Direction>, k: nat, n: nat)
    requires k <= n <= |path|
    ensures Abs(Disp(path, k).y) <= Reach(path, n).0 && Abs(Disp(path, k).x) <= Reach(path, n).1
    decreases n
  {
    if k < n {
      ReachBounds(path, k, n - 1);
    }
  }

  /** A run's end is never farther than its reach. */
  lemma NetWithinReach(path: seq<Direction>)
    ensures NetSize(path).0 <= ReachSize(path).0 && NetSize(path).1 <= ReachSize(path).1
  {
    ReachBounds(path, |path|, |path|);
  }

  /** A size grows with the size of its runs. */
  lemma {:induction false} SizeGrows(p: Path, small: seq<Direction> -> (nat, nat), large: seq<Direction> -> (nat, nat))
    requires forall path :: small(path).0 <= large(path).0 && small(path).1 <= large(path).1
    ensures Size(p, small).0 <= Size(p, large).0 && Size(p, small).1 <= Size(p, large).1
    decreases p, 1
  {
    match p
      case Static(_) =>
      case Segments(segments) => SizeSegmentsGrow(p, |segments|, small, large);
      case Branch(branches) => SizeBranchesGrow(p, |branches|, small, large);
  }

  lemma {:induction false} SizeSegmentsGrow(p: Path, k: nat, small: seq<Direction> -> (nat, nat), large: seq<Direction> -> (nat, nat))
    requires p.Segments? && k <= |p.segments|
    requires forall path :: small(path).0 <= large(path).0 && small(path).1 <= large(path).1
    ensures SizeSegments(p, k, small).0 <= SizeSegments(p, k, large).0
    ensures SizeSegments(p, k, small).1 <= SizeSegments(p, k, large).1
    decreases p, 0, k
  {
    if k > 0 {
      SizeSegmentsGrow(p, k - 1, small, large);
      SizeGrows(p.segments[k - 1], small, large);
    }
  }

  lemma {:induction false} SizeBranchesGrow(p: Path, k: nat, small: seq<Direction> -> (nat, nat), large: seq<Direction> -> (nat, nat))
    requires p.Branch? && k <= |p.branches|
    requires forall path :: small(path).0 <= large(path).0 && small(path).1 <= large(path).1
    ensures SizeBranches(p, k, small).0 <= SizeBranches(p, k, large).0
    ensures SizeBranches(p, k, small).1 <= SizeBranches(p, k, large).1
    decreases p, 0, k
  {
    if k > 0 {
      SizeBranchesGrow(p, k - 1, small, large);
      SizeGrows(p.branches[k - 1], small, large);
    }
  }

  /** The corrected size is never smaller than the size as written. */
  lemma ReachCoversDistance(p: Path)
    ensures MaxDistance(p).0 <= MaxReach(p).0 && MaxDistance(p).1 <= MaxReach(p).1
  {
    forall path
      ensures NetSize(path).0 <= ReachSize(path).0 && NetSize(path).1 <= ReachSize(path).1
    {
      NetWithinReach(path);
    }
    SizeGrows(p, NetSize, ReachSize);
  }

  /** `l` is at most `ud` rooms above or below `c` and at most `lr` rooms to either side. */
  predicate InBox(c: Loci, ud: nat, lr: nat, l: Loci)
  {
    Abs(l.y - c.y) <= 2 * ud && Abs(l.x - c.x) <= 2 * lr
  }

  ghost predicate TraceInBox(c: Loci, ud: nat, lr: nat, t: Trace)
  {
    (forall l :: l in t.rooms ==> InBox(c, ud, lr, l)) &&
    (forall l :: l in t.doors ==> InBox(c, ud, lr, l)) &&
    (forall l :: l in t.ends ==> InBox(c, ud, lr, l))
  }

  lemma AbsSum(a: int, b: int, c: int)
    ensures Abs(a + b + c) <= Abs(a) + Abs(b) + Abs(c)
  {
  }

  /** A room `d` steps from a start inside the box lies inside the box grown by `d`. */
  lemma StepInBox(c: Loci, ud: nat, lr: nat, start: Loci, a: Loci, b: Loci, ry: nat, rx: nat)
    requires InBox(c, ud, lr, start)
    requires Abs(a.y) <= ry && Abs(b.y) <= ry && Abs(a.x) <= rx && Abs(b.x) <= rx
    ensures InBox(c, ud + ry, lr + rx, Loci(start.x + a.x + b.x, start.y + a.y + b.y))
  {
    AbsSum(start.y - c.y, a.y, b.y);
    AbsSum(start.x - c.x, a.x, b.x);
  }

  /** The room after `i` directions stays within the run's reach. */
  lemma RoomInBox(c: Loci, ud: nat, lr: nat, start: Loci, path: seq<Direction>, i: nat)
    requires InBox(c, ud, lr, start) && i <= |path|
    ensures InBox(c, ud + ReachSize(path).0, lr + ReachSize(path).1, Position(start, path, i))
  {
    var d := Disp(path, i);
    ReachBounds(path, i, |path|);
    StepInBox(c, ud, lr, start, d, d, ReachSize(path).0, ReachSize(path).1);
  }

  /** So does the door the `i`-th direction crosses. */
  lemma DoorInBox(c: Loci, ud: nat, lr: nat, start: Loci, path: seq<Direction>, i: nat)
    requires InBox(c, ud, lr, start) && i < |path|
    ensures InBox(c, ud + ReachSize(path).0, lr + ReachSize(path).1, DoorAt(start, path, i))
  {
    ReachBounds(path, i, |path|);
    ReachBounds(path, i + 1, |path|);
    StepInBox(c, ud, lr, start, Disp(path, i), Disp(path, i + 1), ReachSize(path).0, ReachSize(path).1);
  }

  lemma {:induction false} RunInBox(c: Loci, ud: nat, lr: nat, start: Loci, path: seq<Direction>, i: nat)
    requires InBox(c, ud, lr, start) && i <= |path|
    ensures forall l :: l in RoomsUpTo(start, path, i) ==> InBox(c, ud + ReachSize(path).0, lr + ReachSize(path).1, l)
    ensures forall l :: l in DoorsUpTo(start, path, i) ==> InBox(c, ud + ReachSize(path).0, lr + ReachSize(path).1, l)
  {
    if i > 0 {
      RunInBox(c, ud, lr, start, path, i - 1);
      RoomInBox(c, ud, lr, start, path, i);
      DoorInBox(c, ud, lr, start, path, i - 1);
    }
  }

  /**
   * Starting inside a box, a path carves only inside the box grown by its
   * reach: the grid `build_map` allocates from the reach holds every
   * room and door.
   */
  lemma {:induction false} WalkInBox(p: Path, c: Loci, ud: nat, lr: nat, starts: set<Loci>)
    requires forall s :: s in starts ==> InBox(c, ud, lr, s)
    ensures TraceInBox(c, ud + MaxReach(p).0, lr + MaxReach(p).1, Walk(p, starts))
    decreases p, 1
  {
    match p
      case Static(path) =>
        var r := ReachSize(path);
        forall s | s in starts
          ensures forall l :: l in RoomsUpTo(s, path, |path|) ==> InBox(c, ud + r.0, lr + r.1, l)
          ensures forall l :: l in DoorsUpTo(s, path, |path|) ==> InBox(c, ud + r.0, lr + r.1, l)
          ensures InBox(c, ud + r.0, lr + r.1, Position(s, path, |path|))
        {
          RunInBox(c, ud, lr, s, path, |path|);
          RoomInBox(c, ud, lr, s, path, |path|);
        }
      case Segments(segments) => SegmentsInBox(p, |segments|, c, ud, lr, starts);
      case Branch(branches) => BranchesInBox(p, |branches|, c, ud, lr, starts);
  }

  lemma {:induction false} SegmentsInBox(p: Path, k: nat, c: Loci, ud: nat, lr: nat, starts: set<Loci>)
    requires p.Segments? && k <= |p.segments|
    requires forall s :: s in starts ==> InBox(c, ud, lr, s)
    ensures var size := SizeSegments(p, k, ReachSize);
      TraceInBox(c, ud + size.0, lr + size.1, WalkSegments(p, k, starts))
    decreases p, 0, k
  {
    if k > 0 {
      var size := SizeSegments(p, k - 1, ReachSize);
      SegmentsInBox(p, k - 1, c, ud, lr, starts);
      WalkInBox(p.segments[k - 1], c, ud + size.0, lr + size.1, WalkSegments(p, k - 1, starts).ends);
    }
  }

  lemma {:induction false} BranchesInBox(p: Path, k: nat, c: Loci, ud: nat, lr: nat, starts: set<Loci>)
    requires p.Branch? && k <= |p.branches|
    requires forall s :: s in starts ==> InBox(c, ud, lr, s)
    ensures var size := SizeBranches(p, k, ReachSize);
      TraceInBox(c, ud + size.0, lr + size.1, WalkBranches(p, k, starts))
    decreases p, 0, k
  {
    if k > 0 {
      BranchesInBox(p, k - 1, c, ud, lr, starts);
      WalkInBox(p.branches[k - 1], c, ud, lr, starts);
    }
  }

  /** The start room `build_map` picks for a size: two rooms in from the grid's edge, past the reach. */
  function Centre(size: (nat, nat)): Loci
  {
    Loci((size.1 + 2) * 2, (size.0 + 2) * 2)
  }

  /** `l` lies in the grid of twice the centre's width and height that `build_map` allocates. */
  predicate InFrame(size: (nat, nat), l: Loci)
  {
    0 <= l.x < Centre(size).x * 2 && 0 <= l.y < Centre(size).y * 2
  }

  /** `l` lies in that grid with a cell of it on every side. */
  predicate Interior(size: (nat, nat), l: Loci)
  {
    InFrame(size, Sub(l, 1, 1)) && InFrame(size, Add(l, 1, 1))
  }

  /** Every room and door is off the grid's edge, and every end is on the grid. */
  ghost predicate TraceInFrame(size: (nat, nat), t: Trace)
  {
    (forall l :: l in t.rooms ==> Interior(size, l)) &&
    (forall l :: l in t.doors ==> Interior(size, l)) &&
    (forall l :: l in t.ends ==> InFrame(size, l))
  }

  /** Sized by its reach, the grid holds every room and door the path carves from the centre, off its edge. */
  lemma ReachFits(p: Path)
    ensures TraceInFrame(MaxReach(p), Walk(p, {Centre(MaxReach(p))}))
  {
    var size := MaxReach(p);
    var c := Centre(size);
    WalkInBox(p, c, 0, 0, {c});
    var t := Walk(p, {c});
    forall l | l in t.rooms || l in t.doors || l in t.ends
      ensures Interior(size, l) && InFrame(size, l)
    {
      BoxInterior(size, l);
    }
  }

  /** Within the reach of the centre is off the grid's edge. */
  lemma BoxInterior(size: (nat, nat), l: Loci)
    requires InBox(Centre(size), size.0, size.1, l)
    ensures Interior(size, l) && InFrame(size, l)
  {
  }

  /** The doors crossed only accumulate along a run. */
  lemma {:induction false} DoorsGrow(start: Loci, path: seq<Direction>, i: nat, j: nat)
    requires i <= j <= |path|
    ensures DoorsUpTo(start, path, i) <= DoorsUpTo(start, path, j)
    decreases j
  {
    if i < j {
      DoorsGrow(start, path, i, j - 1);
    }
  }

  /** Three steps north, then three back south. */
  const ThereAndBack: seq<Direction> := [North, North, North, South, South, South]

  lemma ThereAndBackNet()
    ensures MaxDistance(Static(ThereAndBack)) == (0, 0)
  {
    var path := ThereAndBack;
    assert Net(path, 1) == (1, 0);
    assert Net(path, 2) == (2, 0);
    assert Net(path, 3) == (3, 0);
    assert Net(path, 4) == (2, 0);
    assert Net(path, 5) == (1, 0);
    assert Net(path, 6) == (0, 0);
  }

  /** A door of a run from `start` is a door of the walk from `start`. */
  lemma RunDoorWalked(start: Loci, path: seq<Direction>, d: Loci)
    requires d in DoorsUpTo(start, path, |path|)
    ensures d in Walk(Static(path), {start}).doors
  {
  }

  lemma ThereAndBackDoor(start: Loci)
    ensures Loci(start.x, start.y - 5) in Walk(Static(ThereAndBack), {start}).doors
  {
    var path := ThereAndBack;
    ThereAndBackSteps();
    assert DoorAt(start, path, 2) == Loci(start.x, start.y - 5);
    assert DoorAt(start, path, 2) in DoorsUpTo(start, path, 3);
    DoorsGrow(start, path, 3, |path|);
    RunDoorWalked(start, path, Loci(start.x, start.y - 5));
  }

  lemma ThereAndBackSteps()
    ensures Disp(ThereAndBack, 2) == Loci(0, -2) && Disp(ThereAndBack, 3) == Loci(0, -3)
  {
    var path := ThereAndBack;
    assert Net(path, 1) == (1, 0);
    assert Net(path, 2) == (2, 0);
    assert Net(path, 3) == (3, 0);
  }

  /**
   * Sized by `max_distance` as written, the grid can be too small: the
   * run `NNNSSS` ends where it starts, so its size is (0, 0) and the grid
   * is 8 by 8 around (4, 4), yet its third door is at (4, -1), outside the
   * grid, where `set_loci` panics.
   */
  lemma DistanceOverflows()
    ensures var p := Static(ThereAndBack);
      MaxDistance(p) == (0, 0) && Centre(MaxDistance(p)) == Loci(4, 4) &&
      Loci(4, -1) in Walk(p, {Loci(4, 4)}).doors && !InFrame(MaxDistance(p), Loci(4, -1))
  {
    ThereAndBackNet();
    ThereAndBackDoor(Loci(4, 4));
  }

  // ---------------------------------------------------------------------
  // Building the map in place
  // ---------------------------------------------------------------------

  /** The cell at `l` once a trace is painted over `before`: a room, else a door, else unchanged. */
  function Paint(t: Trace, before: MapFeature, l: Loci): MapFeature
  {
    if l in t.rooms then Room else if l in t.doors then Door else before
  }

  /**
   * Painting one trace after another is painting both at once: a later
   * door never lands on an earlier room, since doors and rooms sit on
   * different parities.
   */
  lemma PaintTwice(origin: Loci, first: Trace, second: Trace)
    requires Parity(origin, first) && Parity(origin, second)
    ensures forall before, l :: Paint(second, Paint(first, before, l), l) == Paint(Join(first, second), before, l)
  {
    forall before, l
      ensures Paint(second, Paint(first, before, l), l) == Paint(Join(first, second), before, l)
    {
      if l in second.doors && l !in second.rooms {
        assert Between(origin, l);
        assert !Even(origin, l);
      }
    }
  }

  /** Every room and door of a trace is a cell of the grid. */
  ghost predicate Covers(grid: Grid<MapFeature>, t: Trace)
  {
    (forall l :: l in t.rooms ==> grid.Contains(l)) && (forall l :: l in t.doors ==> grid.Contains(l))
  }

  /** A trace carves no more than another. */
  ghost predicate Within(t: Trace, u: Trace)
  {
    t.rooms <= u.rooms && t.doors <= u.doors
  }

  lemma CoversWithin(grid: Grid<MapFeature>, t: Trace, u: Trace)
    requires Covers(grid, u) && Within(t, u)
    ensures Covers(grid, t)
  {
  }

  /** The rooms entered only accumulate along a run. */
  lemma {:induction false} RoomsGrow(start: Loci, path: seq<Direction>, i: nat, j: nat)
    requires i <= j <= |path|
    ensures RoomsUpTo(start, path, i) <= RoomsUpTo(start, path, j)
    decreases j
  {
    if i < j {
      RoomsGrow(start, path, i, j - 1);
    }
  }

  /** A run from a single start carves its rooms and doors and ends in its last room. */
  lemma WalkRun(start: Loci, path: seq<Direction>)
    ensures Walk(Static(path), {start}) ==
      Trace(RoomsUpTo(start, path, |path|), DoorsUpTo(start, path, |path|), {Position(start, path, |path|)})
  {
    var t := Walk(Static(path), {start});
    assert t.rooms == RoomsUpTo(start, path, |path|);
    assert t.doors == DoorsUpTo(start, path, |path|);
  }

  /** Each segment and each earlier stretch of a sequence carves within the whole. */
  lemma {:induction false} SegmentsWithin(p: Path, k: nat, j: nat, starts: set<Loci>)
    requires p.Segments? && k < j <= |p.segments|
    ensures Within(WalkSegments(p, k, starts), WalkSegments(p, j, starts))
    ensures Within(Walk(p.segments[k], WalkSegments(p, k, starts).ends), WalkSegments(p, j, starts))
    decreases j
  {
    if k + 1 < j {
      SegmentsWithin(p, k, j - 1, starts);
    }
  }

  /** Each alternative of a group carves within the whole group. */
  lemma {:induction false} BranchesWithin(p: Path, k: nat, j: nat, starts: set<Loci>)
    requires p.Branch? && k < j <= |p.branches|
    ensures Within(WalkBranches(p, k, starts), WalkBranches(p, j, starts))
    ensures Within(Walk(p.branches[k], starts), WalkBranches(p, j, starts))
    decreases j
  {
    if k + 1 < j {
      BranchesWithin(p, k, j - 1, starts);
    }
  }

  /** The rooms and doors of the first `i` directions of a run. */
  function RunTrace(start: Loci, path: seq<Direction>, i: nat): Trace
    requires i <= |path|
  {
    Trace(RoomsUpTo(start, path, i), DoorsUpTo(start, path, i), {Position(start, path, i)})
  }

  /** One more direction paints one more door and then one more room over the run so far. */
  lemma RunPaintStep(start: Loci, path: seq<Direction>, i: nat)
    requires i < |path|
    ensures forall before, l ::
      Paint(RunTrace(start, path, i + 1), before, l) == PaintStep(RunTrace(start, path, i), start, path, i, before, l)
  {
    RunParity(start, start, path, i + 1);
    var door := DoorAt(start, path, i);
    assert door in DoorsUpTo(start, path, i + 1);
    assert Between(start, door) && !Even(start, door);
  }

  /** The cell at `l` after one more direction carves its door and then its room over `t`. */
  function PaintStep(t: Trace, start: Loci, path: seq<Direction>, i: nat, before: MapFeature, l: Loci): MapFeature
    requires i < |path|
  {
    if l == Position(start, path, i + 1) then Room
    else if l == DoorAt(start, path, i) then Door
    else Paint(t, before, l)
  }

  /** Stepping by a direction's offset from a room reaches its door, and again the next room. */
  lemma StepPositions(start: Loci, path: seq<Direction>, i: nat)
    requires i < |path|
    ensures AddLoci(Position(start, path, i), Offset(path[i])) == DoorAt(start, path, i)
    ensures AddLoci(DoorAt(start, path, i), Offset(path[i])) == Position(start, path, i + 1)
  {
    DispStep(path, i + 1);
  }

  /** The two `set_loci` calls of one direction: a door, then a room. */
  method Carve(grid: Grid<MapFeature>, door: Loci, room: Loci)
    modifies grid
    requires grid.Valid() && grid.Contains(door) && grid.Contains(room)
    ensures grid.Valid()
    ensures forall l :: grid.Contains(l) ==>
      grid.Get(l) == if l == room then Room else if l == door then Door else old(grid.Get(l))
  {
    grid.Set(door, Door);
    grid.Set(room, Room);
  }

  /**
   * `StaticPath::build_map`: each direction paints a door one step on and
   * a room two steps on; the run ends in the last room.
   */
  method BuildRun(path: seq<Direction>, start: Loci, grid: Grid<MapFeature>) returns (ends: set<Loci>)
    modifies grid
    requires grid.Valid() && Covers(grid, Walk(Static(path), {start}))
    ensures grid.Valid()
    ensures ends == Walk(Static(path), {start}).ends
    ensures forall l :: grid.Contains(l) ==> grid.Get(l) == Paint(Walk(Static(path), {start}), old(grid.Get(l)), l)
  {
    var location := start;
    for i := 0 to |path|
      invariant grid.Valid()
      invariant location == Position(start, path, i)
      invariant forall l :: grid.Contains(l) ==> grid.Get(l) == Paint(RunTrace(start, path, i), old(grid.Get(l)), l)
    {
      var inc := Offset(path[i]);
      var door := AddLoci(location, inc);
      location := AddLoci(door, inc);
      StepPositions(start, path, i);
      DoorsGrow(start, path, i + 1, |path|);
      RoomsGrow(start, path, i + 1, |path|);
      label painted:
      Carve(grid, door, location);
      RunPaintStep(start, path, i);
      forall l | grid.Contains(l)
        ensures grid.Get(l) == Paint(RunTrace(start, path, i + 1), old(grid.Get(l)), l)
      {
        assert grid.Get(l) == PaintStep(RunTrace(start, path, i), start, path, i, old(grid.Get(l)), l);
      }
    }
    ends := {location};
    WalkRun(start, path);
  }

  /** `Path::build_map`: paints every room and door the path carves from `start` and returns the rooms it ends in. */
  method BuildPath(p: Path, start: Loci, grid: Grid<MapFeature>) returns (ends: set<Loci>)
    modifies grid
    requires grid.Valid() && Covers(grid, Walk(p, {start}))
    ensures grid.Valid()
    ensures ends == Walk(p, {start}).ends
    ensures forall l :: grid.Contains(l) ==> grid.Get(l) == Paint(Walk(p, {start}), old(grid.Get(l)), l)
    decreases p, 2
  {
    match p
    case Static(path) => ends := BuildRun(path, start, grid);
    case Segments(_) => ends := BuildSegments(p, start, grid);
    case Branch(_) => ends := BuildBranch(p, start, grid);
  }

  /** `Branch::build_map`: every alternative from the same start; the ends of all of them. */
  method BuildBranch(p: Path, start: Loci, grid: Grid<MapFeature>) returns (ends: set<Loci>)
    modifies grid
    requires p.Branch? && grid.Valid() && Covers(grid, Walk(p, {start}))
    ensures grid.Valid()
    ensures ends == Walk(p, {start}).ends
    ensures forall l :: grid.Contains(l) ==> grid.Get(l) == Paint(Walk(p, {start}), old(grid.Get(l)), l)
    decreases p, 1
  {
    ends := {};
    for k := 0 to |p.branches|
      invariant grid.Valid()
      invariant ends == WalkBranches(p, k, {start}).ends
      invariant forall l :: grid.Contains(l) ==> grid.Get(l) == Paint(WalkBranches(p, k, {start}), old(grid.Get(l)), l)
    {
      var branch := p.branches[k];
      BranchesWithin(p, k, |p.branches|, {start});
      CoversWithin(grid, Walk(branch, {start}), Walk(p, {start}));
      var found := BuildPath(branch, start, grid);
      BranchesParity(p, k, start, {start});
      WalkParity(branch, start, {start});
      PaintTwice(start, WalkBranches(p, k, {start}), Walk(branch, {start}));
      ends := ends + found;
    }
  }

  /** `PathSegments::build_map`: each segment from every room the one before ends in. */
  method BuildSegments(p: Path, start: Loci, grid: Grid<MapFeature>) returns (ends: set<Loci>)
    modifies grid
    requires p.Segments? && grid.Valid() && Covers(grid, Walk(p, {start}))
    ensures grid.Valid()
    ensures ends == Walk(p, {start}).ends
    ensures forall l :: grid.Contains(l) ==> grid.Get(l) == Paint(Walk(p, {start}), old(grid.Get(l)), l)
    decreases p, 1
  {
    var current := {start};
    for k := 0 to |p.segments|
      invariant grid.Valid()
      invariant current == WalkSegments(p, k, {start}).ends
      invariant forall l :: grid.Contains(l) ==> grid.Get(l) == Paint(WalkSegments(p, k, {start}), old(grid.Get(l)), l)
    {
      var segment := p.segments[k];
      ghost var before := WalkSegments(p, k, {start});
      SegmentsWithin(p, k, |p.segments|, {start});
      CoversWithin(grid, Walk(segment, current), Walk(p, {start}));
      SegmentsParity(p, k, start, {start});
      label painted:
      current := BuildFromEach(segment, current, grid, start);
      ghost var last := Walk(segment, before.ends);
      WalkParity(segment, start, before.ends);
      PaintTwice(start, before, last);
      forall l | grid.Contains(l)
        ensures grid.Get(l) == Paint(WalkSegments(p, k + 1, {start}), old(grid.Get(l)), l)
      {
        assert grid.Get(l) == Paint(last, old@painted(grid.Get(l)), l);
      }
    }
    ends := current;
  }

  /**
   * The inner loop of `PathSegments::build_map`: one segment from each
   * room of `starts`, taken in any order.
   */
  method BuildFromEach(p: Path, starts: set<Loci>, grid: Grid<MapFeature>, ghost origin: Loci) returns (ends: set<Loci>)
    modifies grid
    requires grid.Valid() && Covers(grid, Walk(p, starts))
    requires forall s :: s in starts ==> Even(origin, s)
    ensures grid.Valid()
    ensures ends == Walk(p, starts).ends
    ensures forall l :: grid.Contains(l) ==> grid.Get(l) == Paint(Walk(p, starts), old(grid.Get(l)), l)
    decreases p, 3
  {
    ends := {};
    var remaining := starts;
    ghost var done: set<Loci> := {};
    WalkNothing(p);
    while remaining != {}
      invariant grid.Valid()
      invariant done + remaining == starts && done !! remaining
      invariant ends == Walk(p, done).ends
      invariant forall l :: grid.Contains(l) ==> grid.Get(l) == Paint(Walk(p, done), old(grid.Get(l)), l)
      decreases remaining
    {
      var s :| s in remaining;
      assert starts == {s} + (starts - {s});
      WalkSplits(p, {s}, starts - {s});
      var found := BuildPath(p, s, grid);
      WalkParity(p, origin, done);
      WalkParity(p, origin, {s});
      PaintTwice(origin, Walk(p, done), Walk(p, {s}));
      WalkSplits(p, done, {s});
      ends := ends + found;
      done := done + {s};
      remaining := remaining - {s};
    }
    assert done == starts;
  }

  /** A room's coordinates differ from its run's start by at most one per direction, so the end is at most 2n cells away. */
  lemma {:induction false} DispWithin(path: seq<Direction>, k: nat)
    requires k <= |path|
    ensures Abs(Disp(path, k).x) + Abs(Disp(path, k).y) <= k
  {
    if k > 0 {
      DispWithin(path, k - 1);
      DispStep(path, k);
    }
  }

  /** `StaticPath::build_map` ends in one room, at most two cells per direction from its start. */
  lemma RunEnd(start: Loci, path: seq<Direction>)
    ensures Walk(Static(path), {start}).ends == {Position(start, path, |path|)}
    ensures Distance(start, Position(start, path, |path|)) <= 2 * |path|
  {
    WalkRun(start, path);
    DispWithin(path, |path|);
  }

  /** A cell `build_map` carved: a room or a door. */
  ghost predicate Carved(grid: Grid<MapFeature>, l: Loci)
    reads grid
    requires grid.Valid()
  {
    grid.Contains(l) && grid.Get(l) != Wall
  }

  /** Each of `left`, `right`, `top` and `bottom` is a carved cell on one side of the box from `lo` to `hi`. */
  ghost predicate Witnessed(grid: Grid<MapFeature>, lo: Loci, hi: Loci, left: Loci, right: Loci, top: Loci, bottom: Loci)
    reads grid
    requires grid.Valid()
  {
    Carved(grid, left) && left.x == lo.x && Carved(grid, right) && right.x == hi.x &&
    Carved(grid, top) && top.y == lo.y && Carved(grid, bottom) && bottom.y == hi.y
  }

  /** The bounds the scan starts from, past every cell of the grid. */
  function Unseen(grid: Grid<MapFeature>): (Loci, Loci)
  {
    (Loci(grid.XMax(), grid.YMax()), Loci(grid.xMin - 1, grid.yMin - 1))
  }

  /** Where the scan stands: bounds attained by carved cells, or the starting bounds while none was seen. */
  ghost predicate Scanned(grid: Grid<MapFeature>, lo: Loci, hi: Loci, left: Loci, right: Loci, top: Loci, bottom: Loci)
    reads grid
    requires grid.Valid()
  {
    if lo.x <= hi.x then Witnessed(grid, lo, hi, left, right, top, bottom) else (lo, hi) == Unseen(grid)
  }

  /**
   * The scan of `prune_map`: the least and greatest coordinates of a carved
   * cell, each attained by one, or, on a grid with none, bounds past every
   * cell (the source starts from `Loci::max_value` and `Loci::min_value`).
   */
  method Bounds(grid: Grid<MapFeature>) returns (lo: Loci, hi: Loci, ghost left: Loci, ghost right: Loci, ghost top: Loci, ghost bottom: Loci)
    requires grid.Valid()
    ensures forall l :: Carved(grid, l) ==> lo.x <= l.x <= hi.x && lo.y <= l.y <= hi.y
    ensures lo.x <= hi.x ==> Witnessed(grid, lo, hi, left, right, top, bottom)
  {
    lo, hi := Unseen(grid).0, Unseen(grid).1;
    left, right, top, bottom := lo, lo, lo, lo;
    for y := grid.yMin to grid.YMax()
      invariant forall l :: Carved(grid, l) && l.y < y ==> lo.x <= l.x <= hi.x && lo.y <= l.y <= hi.y
      invariant Scanned(grid, lo, hi, left, right, top, bottom)
    {
      lo, hi, left, right, top, bottom := BoundsRow(grid, y, lo, hi, left, right, top, bottom);
    }
  }

  /** One carved cell widens the bounds to take it in. */
  function Widen(lo: Loci, hi: Loci, l: Loci): (Loci, Loci)
  {
    (Loci(Min(lo.x, l.x), Min(lo.y, l.y)), Loci(Max(hi.x, l.x), Max(hi.y, l.y)))
  }

  /** One row of the scan, widening the bounds to every carved cell of row `y`. */
  method BoundsRow(grid: Grid<MapFeature>, y: int, lo0: Loci, hi0: Loci, ghost left0: Loci, ghost right0: Loci,
                   ghost top0: Loci, ghost bottom0: Loci)
    returns (lo: Loci, hi: Loci, ghost left: Loci, ghost right: Loci, ghost top: Loci, ghost bottom: Loci)
    requires grid.Valid() && grid.yMin <= y < grid.YMax()
    requires Scanned(grid, lo0, hi0, left0, right0, top0, bottom0)
    ensures forall l :: Carved(grid, l) && l.y == y ==> lo.x <= l.x <= hi.x && lo.y <= l.y <= hi.y
    ensures lo.x <= lo0.x && lo.y <= lo0.y && hi.x >= hi0.x && hi.y >= hi0.y
    ensures Scanned(grid, lo, hi, left, right, top, bottom)
  {
    lo, hi, left, right, top, bottom := lo0, hi0, left0, right0, top0, bottom0;
    for x := grid.xMin to grid.XMax()
      invariant forall l :: Carved(grid, l) && l.y == y && l.x < x ==> lo.x <= l.x <= hi.x && lo.y <= l.y <= hi.y
      invariant lo.x <= lo0.x && lo.y <= lo0.y && hi.x >= hi0.x && hi.y >= hi0.y
      invariant Scanned(grid, lo, hi, left, right, top, bottom)
    {
      lo, hi, left, right, top, bottom := Visit(grid, Loci(x, y), lo, hi, left, right, top, bottom);
    }
  }

  /** One cell of the scan: a carved cell widens the bounds to take it in, a wall leaves them. */
  method Visit(grid: Grid<MapFeature>, l: Loci, lo0: Loci, hi0: Loci, ghost left0: Loci, ghost right0: Loci,
               ghost top0: Loci, ghost bottom0: Loci)
    returns (lo: Loci, hi: Loci, ghost left: Loci, ghost right: Loci, ghost top: Loci, ghost bottom: Loci)
    requires grid.Valid() && grid.Contains(l)
    requires Scanned(grid, lo0, hi0, left0, right0, top0, bottom0)
    ensures Carved(grid, l) ==> lo.x <= l.x <= hi.x && lo.y <= l.y <= hi.y
    ensures lo.x <= lo0.x && lo.y <= lo0.y && hi.x >= hi0.x && hi.y >= hi0.y
    ensures Scanned(grid, lo, hi, left, right, top, bottom)
  {
    lo, hi, left, right, top, bottom := lo0, hi0, left0, right0, top0, bottom0;
    if grid.Get(l) != Wall {
      if l.x < lo.x { left := l; }
      if l.x > hi.x { right := l; }
      if l.y < lo.y { top := l; }
      if l.y > hi.y { bottom := l; }
      lo, hi := Widen(lo, hi, l).0, Widen(lo, hi, l).1;
    }
  }

  /** `grid` takes `from`'s cell in row `y`; the other rows keep theirs. */
  method CopyRow(grid: Grid<MapFeature>, from: Grid<MapFeature>, y: int)
    modifies grid
    requires grid != from && grid.Valid() && from.Valid() && grid.yMin <= y < grid.YMax()
    requires forall x :: grid.xMin <= x < grid.XMax() ==> from.Contains(Loci(x, y))
    ensures grid.Valid()
    ensures forall l :: grid.Contains(l) ==> grid.Get(l) == if l.y == y then from.Get(l) else old(grid.Get(l))
  {
    for x := grid.xMin to grid.XMax()
      invariant grid.Valid()
      invariant forall l :: grid.Contains(l) ==>
        grid.Get(l) == if l.y == y && l.x < x then from.Get(l) else old(grid.Get(l))
    {
      var l := Loci(x, y);
      grid.Set(l, from.Get(l));
    }
  }

  /** The copy loops of `prune_map`: every cell of `grid` takes the same cell of `from`. */
  method CopyCells(grid: Grid<MapFeature>, from: Grid<MapFeature>)
    modifies grid
    requires grid != from && grid.Valid() && from.Valid()
    requires forall l :: grid.Contains(l) ==> from.Contains(l)
    ensures grid.Valid()
    ensures forall l :: grid.Contains(l) ==> grid.Get(l) == from.Get(l)
  {
    for y := grid.yMin to grid.YMax()
      invariant grid.Valid()
      invariant forall l :: grid.Contains(l) && l.y < y ==> grid.Get(l) == from.Get(l)
    {
      CopyRow(grid, from, y);
    }
  }

  /**
   * `prune_map`: a new grid over the carved cells' bounding box grown by
   * one wall on every side, holding the same cells as the old one; each
   * side of the box holds a carved cell (`left`, `right`, `top`, `bottom`).
   * The old grid must leave a cell beyond every carved one, or the copy
   * reads off it.
   */
  method PruneMap(full: Grid<MapFeature>) returns (grid: Grid<MapFeature>, ghost lo: Loci, ghost hi: Loci,
                                                   ghost left: Loci, ghost right: Loci, ghost top: Loci, ghost bottom: Loci)
    requires full.Valid()
    requires exists l :: Carved(full, l)
    requires forall l :: Carved(full, l) ==> full.Contains(Sub(l, 1, 1)) && full.Contains(Add(l, 1, 1))
    ensures fresh(grid) && grid.Valid()
    ensures forall l :: grid.Contains(l) ==> full.Contains(l) && grid.Get(l) == full.Get(l)
    ensures grid.xMin == lo.x - 1 && grid.XMax() == hi.x + 2 && grid.yMin == lo.y - 1 && grid.YMax() == hi.y + 2
    ensures forall l :: Carved(full, l) ==> lo.x <= l.x <= hi.x && lo.y <= l.y <= hi.y
    ensures Witnessed(full, lo, hi, left, right, top, bottom)
  {
    var min, max;
    min, max, left, right, top, bottom := Bounds(full);
    lo, hi := min, max;
    BoundsInside(full, lo, hi, left, right, top, bottom);
    grid := Reframe(full, Sub(min, 1, 1), Add(max, 2, 2));
  }

  /** The bounds the scan finds are attained, and the old grid reaches one cell past them. */
  lemma BoundsInside(full: Grid<MapFeature>, lo: Loci, hi: Loci, left: Loci, right: Loci, top: Loci, bottom: Loci)
    requires full.Valid()
    requires exists l :: Carved(full, l)
    requires forall l :: Carved(full, l) ==> full.Contains(Sub(l, 1, 1)) && full.Contains(Add(l, 1, 1))
    requires forall l :: Carved(full, l) ==> lo.x <= l.x <= hi.x && lo.y <= l.y <= hi.y
    requires lo.x <= hi.x ==> Witnessed(full, lo, hi, left, right, top, bottom)
    ensures Witnessed(full, lo, hi, left, right, top, bottom)
    ensures full.xMin <= lo.x - 1 && hi.x + 2 <= full.XMax() && full.yMin <= lo.y - 1 && hi.y + 2 <= full.YMax()
  {
    var some :| Carved(full, some);
    assert lo.x <= some.x <= hi.x;
    assert full.Contains(Sub(left, 1, 1)) && full.Contains(Add(right, 1, 1));
    assert full.Contains(Sub(top, 1, 1)) && full.Contains(Add(bottom, 1, 1));
  }

  /** The grid over the bounds grown by one on every side holds each carved cell with its neighbours. */
  lemma PaddedBox(full: Grid<MapFeature>, lo: Loci, hi: Loci, grid: Grid<MapFeature>)
    requires full.Valid()
    requires forall l :: Carved(full, l) ==> lo.x <= l.x <= hi.x && lo.y <= l.y <= hi.y
    requires grid.xMin == lo.x - 1 && grid.XMax() == hi.x + 2 && grid.yMin == lo.y - 1 && grid.YMax() == hi.y + 2
    ensures forall l :: Carved(full, l) ==> grid.Contains(Sub(l, 1, 1)) && grid.Contains(Add(l, 1, 1))
  {
  }

  /** A new grid from `low` up to, but not including, `high`, holding the cells of `full` there. */
  method Reframe(full: Grid<MapFeature>, low: Loci, high: Loci) returns (grid: Grid<MapFeature>)
    requires full.Valid()
    requires full.xMin <= low.x <= high.x <= full.XMax() && full.yMin <= low.y <= high.y <= full.YMax()
    ensures fresh(grid) && grid.Valid()
    ensures grid.xMin == low.x && grid.XMax() == high.x && grid.yMin == low.y && grid.YMax() == high.y
    ensures forall l :: grid.Contains(l) ==> full.Contains(l) && grid.Get(l) == full.Get(l)
  {
    var size := SubLoci(high, low);
    grid := new Grid<MapFeature>.NewOffset(Wall, size.x, size.y, low.x, low.y);
    CopyCells(grid, full);
  }

  /** `Display` for a map cell: rooms and doors are open, walls are `#`. */
  function Glyph(f: MapFeature): (c: char)
    ensures c == '#' <==> f == Wall
    ensures c == ' ' <==> f != Wall
  {
    match f
      case Room => ' '
      case Door => ' '
      case Wall => '#'
  }

  /** What the top-level `build_map` paints before pruning: the path over walls, from a room at the centre. */
  ghost predicate PaintedFrom(grid: Grid<MapFeature>, p: Path, center: Loci)
    reads grid
    requires grid.Valid()
  {
    forall l :: grid.Contains(l) ==> grid.Get(l) == Paint(Walk(p, {center}), if l == center then Room else Wall, l)
  }

  /**
   * The first half of the top-level `build_map`, sized by the reach: a grid
   * of walls twice the centre's size, a room at the centre, and the path
   * carved from it.
   */
  method BuildFull(p: Path) returns (center: Loci, full: Grid<MapFeature>)
    ensures center == Centre(MaxReach(p))
    ensures fresh(full) && full.Valid()
    ensures full.xMin == 0 && full.XMax() == center.x * 2 && full.yMin == 0 && full.YMax() == center.y * 2
    ensures PaintedFrom(full, p, center)
  {
    var size := MaxReach(p);
    center := Centre(size);
    full := new Grid<MapFeature>.NewOffset(Wall, center.x * 2, center.y * 2, 0, 0);
    full.Set(center, Room);
    ReachFits(p);
    var _ := BuildPath(p, center, full);
  }

  /** On that grid every carved cell is the centre or carved by the path, so off the grid's edge. */
  lemma CarvedInterior(full: Grid<MapFeature>, p: Path, center: Loci)
    requires center == Centre(MaxReach(p)) && full.Valid() && PaintedFrom(full, p, center)
    requires full.xMin == 0 && full.XMax() == center.x * 2 && full.yMin == 0 && full.YMax() == center.y * 2
    ensures forall l :: Carved(full, l) ==> full.Contains(Sub(l, 1, 1)) && full.Contains(Add(l, 1, 1))
    ensures Carved(full, center)
  {
    ReachFits(p);
    var walk := Walk(p, {center});
    forall l | Carved(full, l)
      ensures full.Contains(Sub(l, 1, 1)) && full.Contains(Add(l, 1, 1))
    {
      assert l == center || l in walk.rooms || l in walk.doors;
    }
  }

  /**
   * The top-level `build_map`, sized by the reach: the centre is a room,
   * every other cell holds what the path carves over walls, and the grid is
   * pruned to the carved cells with a wall around them.
   */
  method BuildMap(p: Path) returns (center: Loci, grid: Grid<MapFeature>)
    ensures center == Centre(MaxReach(p))
    ensures grid.Valid() && PaintedFrom(grid, p, center)
    ensures grid.Contains(center) && Covers(grid, Walk(p, {center}))
    ensures forall l :: Carved(grid, l) ==> grid.Contains(Sub(l, 1, 1)) && grid.Contains(Add(l, 1, 1))
  {
    var full;
    center, full := BuildFull(p);
    CarvedInterior(full, p, center);
    ghost var lo, hi, left, right, top, bottom;
    grid, lo, hi, left, right, top, bottom := PruneMap(full);
    PaddedBox(full, lo, hi, grid);
    KeptAfterPruning(full, grid, p, center);
  }

  /** What pruning keeps of the painted grid: its cells, the centre and every room and door of the path. */
  lemma KeptAfterPruning(full: Grid<MapFeature>, grid: Grid<MapFeature>, p: Path, center: Loci)
    requires center == Centre(MaxReach(p)) && full.Valid() && grid.Valid() && PaintedFrom(full, p, center)
    requires full.xMin == 0 && full.XMax() == center.x * 2 && full.yMin == 0 && full.YMax() == center.y * 2
    requires forall l :: grid.Contains(l) ==> full.Contains(l) && grid.Get(l) == full.Get(l)
    requires forall l :: Carved(full, l) ==> grid.Contains(Sub(l, 1, 1)) && grid.Contains(Add(l, 1, 1))
    ensures PaintedFrom(grid, p, center)
    ensures grid.Contains(center) && Covers(grid, Walk(p, {center}))
    ensures forall l :: Carved(grid, l) ==> grid.Contains(Sub(l, 1, 1)) && grid.Contains(Add(l, 1, 1))
  {
    CarvedInterior(full, p, center);
    ReachFits(p);
    var walk := Walk(p, {center});
    forall l | l in walk.rooms || l in walk.doors
      ensures grid.Contains(l)
    {
      assert Carved(full, l);
    }
    forall l | Carved(grid, l)
      ensures grid.Contains(Sub(l, 1, 1)) && grid.Contains(Add(l, 1, 1))
    {
      assert Carved(full, l);
    }
  }
}
