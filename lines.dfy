/**
  The line validators of the tokenizer (`add_s_line`, `add_l_line`, `add_p_line`,
  `add_w_line`, `check_field`), the single validating pass over the file, and the
  records the replays (`for_each_segment`, `for_each_link`, `for_each_path`,
  `for_each_walk` and the name-only variants) hand to their consumers.

  The pass is a pure function `Pass` from a position and a `PassState` (the
  validity flag, the translation flag, the two statistics and the four line
  indexes) to the final state; the file class runs the same pass imperatively and
  is proved to end in `Pass(data, numericId, 0, Initial)`.

  `numericId(name)` stands for "`std::stoul(name)` succeeds and is not 0"; the
  model leaves that library function uninterpreted.
 */
module GfaLines {
  import opened GfaBytes
  import opened GfaTokens
  import opened Optional

  // ---------------------------------------------------------------------------
  // Fields of one line

  /** The test of `check_field`: the field is non-empty, and has a successor when one is required. */
  predicate FieldOk(f: Field, shouldHaveNext: bool) {
    f.begin < f.end && (shouldHaveNext ==> f.hasNext)
  }

  /** The first field of the line at `p`, kept when it passes `check_field`. */
  function CheckedFirstField(data: Text, p: nat, shouldHaveNext: bool): (r: Option<Field>)
    requires p <= |data|
    ensures r.Some? ==> Proper(data, r.value) && FieldOk(r.value, shouldHaveNext) && r.value.begin == p
  {
    var f := FirstFieldOf(data, p);
    if FieldOk(f, shouldHaveNext) then Some(f) else None
  }

  /** The field after `f`, kept when it passes `check_field`. */
  function CheckedNextField(data: Text, f: Field, shouldHaveNext: bool): (r: Option<Field>)
    requires f.end < |data|
    ensures r.Some? ==> Proper(data, r.value) && FieldOk(r.value, shouldHaveNext) && r.value.begin == f.end + 1
  {
    var g := NextFieldOf(data, f);
    if FieldOk(g, shouldHaveNext) then Some(g) else None
  }

  datatype SegmentFields = SegmentFields(name: Field, sequence: Field)
  datatype LinkFields = LinkFields(from: Field, fromOrientation: Field, to: Field, toOrientation: Field)
  datatype PathFields = PathFields(name: Field, segments: seq<Field>)
  datatype WalkNameFields = WalkNameFields(sample: Field, haplotype: Field, contig: Field, start: Field, end: Field)
  datatype WalkFields = WalkFields(names: WalkNameFields, segments: seq<Field>)

  /** The name field of an S-line, when its record-type and name fields pass `check_field`. */
  function SNameField(data: Text, p: nat): (r: Option<Field>)
    requires p <= |data|
    ensures r.Some? ==> Proper(data, r.value) && FieldOk(r.value, true) && p < r.value.begin
  {
    var f0 :- CheckedFirstField(data, p, true);
    CheckedNextField(data, f0, true)
  }

  /** The fields of a well-formed S-line: a name followed by a further field, then a non-empty sequence. */
  function SLineFields(data: Text, p: nat): (r: Option<SegmentFields>)
    requires p <= |data|
    ensures r.Some? ==> && Proper(data, r.value.name) && FieldOk(r.value.name, true)
                        && Proper(data, r.value.sequence) && FieldOk(r.value.sequence, false)
                        && p < r.value.name.begin < r.value.sequence.begin
  {
    var f1 :- SNameField(data, p);
    var f2 :- CheckedNextField(data, f1, false);
    Some(SegmentFields(f1, f2))
  }

  /** The fields of a well-formed L-line; both orientations must be exactly `+` or `-`. */
  function LLineFields(data: Text, p: nat): (r: Option<LinkFields>)
    requires p <= |data|
    ensures r.Some? ==> && Proper(data, r.value.from) && FieldOk(r.value.from, true)
                        && Proper(data, r.value.fromOrientation) && ValidOrientation(data, r.value.fromOrientation)
                        && Proper(data, r.value.to) && FieldOk(r.value.to, true)
                        && Proper(data, r.value.toOrientation) && ValidOrientation(data, r.value.toOrientation)
                        && p < r.value.toOrientation.begin
  {
    var f0 :- CheckedFirstField(data, p, true);
    var f1 :- CheckedNextField(data, f0, true);
    var f2 :- CheckedNextField(data, f1, true);
    if !ValidOrientation(data, f2) then None
    else
      var f3 :- CheckedNextField(data, f2, true);
      var f4 :- CheckedNextField(data, f3, false);
      if !ValidOrientation(data, f4) then None
      else Some(LinkFields(f1, f2, f3, f4))
  }

  /**
    The do-while loop of `add_p_line` from the field `f` that precedes the
    segment list: the comma-separated subfields up to the one without successor,
    or None at the first invalid one. Because the loop body runs at least once,
    an accepted list is never empty.
   */
  function PathSubfields(data: Text, f: Field): (r: Option<seq<Field>>)
    requires f.end < |data|
    ensures r.Some? ==> 1 <= |r.value| && f.end < LastEnd(r.value) <= |data|
    decreases |data| - f.end
  {
    var g := NextSubfieldOf(data, f);
    if !ValidPathSegment(data, g) then None
    else if !g.hasNext then Some([g])
    else
      var rest :- PathSubfields(data, g);
      Some([g] + rest)
  }

  /** The same loop of `add_w_line` over walk subfields, starting at `f.end`. */
  function WalkSubfields(data: Text, f: Field): (r: Option<seq<Field>>)
    requires f.end <= |data|
    ensures r.Some? ==> 1 <= |r.value| && f.end < LastEnd(r.value) <= |data|
    decreases |data| - f.end
  {
    var g := NextWalkSubfieldOf(data, f);
    if !ValidWalkSegment(data, g) then None
    else if !g.hasNext then Some([g])
    else
      var rest :- WalkSubfields(data, g);
      Some([g] + rest)
  }

  /** Every subfield the P-line loop accepts is a valid path segment lying after `f`. */
  predicate PathSegmentsValid(data: Text, subs: seq<Field>) {
    forall k :: 0 <= k < |subs| ==> Proper(data, subs[k]) && ValidPathSegment(data, subs[k])
  }

  /** Every subfield the W-line loop accepts is a valid walk segment. */
  predicate WalkSegmentsValid(data: Text, subs: seq<Field>) {
    forall k :: 0 <= k < |subs| ==> Proper(data, subs[k]) && ValidWalkSegment(data, subs[k])
  }

  lemma {:induction false} PathSubfieldsValid(data: Text, f: Field)
    requires f.end < |data| && PathSubfields(data, f).Some?
    ensures PathSegmentsValid(data, PathSubfields(data, f).value)
    decreases |data| - f.end
  {
    var g := NextSubfieldOf(data, f);
    if g.hasNext {
      PathSubfieldsValid(data, g);
      var rest := PathSubfields(data, g).value;
      assert PathSubfields(data, f).value == [g] + rest;
      assert forall k :: 1 <= k < |rest| + 1 ==> ([g] + rest)[k] == rest[k - 1];
    }
  }

  lemma {:induction false} WalkSubfieldsValid(data: Text, f: Field)
    requires f.end <= |data| && WalkSubfields(data, f).Some?
    ensures WalkSegmentsValid(data, WalkSubfields(data, f).value)
    decreases |data| - f.end
  {
    var g := NextWalkSubfieldOf(data, f);
    if g.hasNext {
      WalkSubfieldsValid(data, g);
      var rest := WalkSubfields(data, g).value;
      assert WalkSubfields(data, f).value == [g] + rest;
      assert forall k :: 1 <= k < |rest| + 1 ==> ([g] + rest)[k] == rest[k - 1];
    }
  }

  /** The fields of a well-formed P-line: a name with a successor, then at least one valid segment. */
  function PLineFields(data: Text, p: nat): (r: Option<PathFields>)
    requires p <= |data|
    ensures r.Some? ==> && Proper(data, r.value.name) && FieldOk(r.value.name, true)
                        && 1 <= |r.value.segments| && p < LastEnd(r.value.segments) <= |data|
  {
    var f0 :- CheckedFirstField(data, p, true);
    var f1 :- CheckedNextField(data, f0, true);
    var subs :- PathSubfields(data, f1);
    Some(PathFields(f1, subs))
  }

  /** The five fields of a W-line after its record type, each non-empty and followed by another field. */
  function WLineNames(data: Text, p: nat): (r: Option<WalkNameFields>)
    requires p <= |data|
    ensures r.Some? ==> && Proper(data, r.value.sample) && FieldOk(r.value.sample, true)
                        && Proper(data, r.value.haplotype) && FieldOk(r.value.haplotype, true)
                        && Proper(data, r.value.contig) && FieldOk(r.value.contig, true)
                        && Proper(data, r.value.start) && FieldOk(r.value.start, true)
                        && Proper(data, r.value.end) && FieldOk(r.value.end, true)
                        && p < r.value.end.begin
  {
    var f0 :- CheckedFirstField(data, p, true);
    var f1 :- CheckedNextField(data, f0, true);
    var f2 :- CheckedNextField(data, f1, true);
    var f3 :- CheckedNextField(data, f2, true);
    var f4 :- CheckedNextField(data, f3, true);
    var f5 :- CheckedNextField(data, f4, true);
    Some(WalkNameFields(f1, f2, f3, f4, f5))
  }

  /** The fields of a well-formed W-line: the five leading fields, then at least one valid segment. */
  function WLineFields(data: Text, p: nat): (r: Option<WalkFields>)
    requires p <= |data|
    ensures r.Some? ==> WLineNames(data, p) == Some(r.value.names)
                        && 1 <= |r.value.segments| && p < LastEnd(r.value.segments) <= |data|
  {
    var names :- WLineNames(data, p);
    var subs :- WalkSubfields(data, StartWalk(names.end));
    Some(WalkFields(names, subs))
  }

  // ---------------------------------------------------------------------------
  // The validating pass

  /** What the pass has gathered so far: `valid_gfa`, `translate_segment_ids`, the statistics, the line indexes. */
  datatype PassState = PassState(
    valid: bool, translate: bool, maxSegmentLength: nat, maxPathLength: nat,
    sLines: seq<nat>, lLines: seq<nat>, pLines: seq<nat>, wLines: seq<nat>)

  /** The state the constructor starts from. */
  const Initial := PassState(true, false, 0, 0, [], [], [], [])

  /** `std::max` on sizes. */
  function Larger(a: nat, b: nat): (r: nat)
    ensures a <= r && b <= r && (r == a || r == b)
  {
    if a < b then b else a
  }

  /** The position `next_line` returns after the last accepted field of a line. */
  function LastEnd(fields: seq<Field>): nat
    requires |fields| >= 1
  {
    fields[|fields| - 1].end
  }

  /** `add_s_line`: record the line, check its fields, and update the translation flag and the maximum length. */
  function StepS(data: Text, numericId: Text -> bool, p: nat, st: PassState): (PassState, Option<nat>)
    requires p < |data|
  {
    var st1 := st.(sLines := st.sLines + [p]);
    match SNameField(data, p)
    case None => (st1.(valid := false), None)
    case Some(f1) =>
      // The name is parsed only while the flag is clear; once set it stays set.
      var st2 := st1.(translate := st1.translate || !numericId(Slice(data, f1)));
      match CheckedNextField(data, f1, false)
      case None => (st2.(valid := false), None)
      case Some(f2) =>
        (st2.(maxSegmentLength := Larger(st2.maxSegmentLength, f2.end - f2.begin)), Some(NextLineOf(data, f2.end)))
  }

  /** `add_l_line`. */
  function StepL(data: Text, p: nat, st: PassState): (PassState, Option<nat>)
    requires p < |data|
  {
    var st1 := st.(lLines := st.lLines + [p]);
    match LLineFields(data, p)
    case None => (st1.(valid := false), None)
    case Some(lf) => (st1, Some(NextLineOf(data, lf.toOrientation.end)))
  }

  /** `add_p_line`. */
  function StepP(data: Text, p: nat, st: PassState): (PassState, Option<nat>)
    requires p < |data|
  {
    var st1 := st.(pLines := st.pLines + [p]);
    match PLineFields(data, p)
    case None => (st1.(valid := false), None)
    case Some(pf) =>
      (st1.(maxPathLength := Larger(st1.maxPathLength, |pf.segments|)), Some(NextLineOf(data, LastEnd(pf.segments))))
  }

  /** `add_w_line`. */
  function StepW(data: Text, p: nat, st: PassState): (PassState, Option<nat>)
    requires p < |data|
  {
    var st1 := st.(wLines := st.wLines + [p]);
    match WLineFields(data, p)
    case None => (st1.(valid := false), None)
    case Some(wf) =>
      (st1.(maxPathLength := Larger(st1.maxPathLength, |wf.segments|)), Some(NextLineOf(data, LastEnd(wf.segments))))
  }

  /** An S-line whose record-type or name field fails: recorded, file marked invalid. */
  lemma StepSRejectsName(data: Text, numericId: Text -> bool, p: nat, st: PassState)
    requires p < |data| && SNameField(data, p).None?
    ensures StepS(data, numericId, p, st) == (st.(sLines := st.sLines + [p], valid := false), None)
  {
  }

  /** An S-line whose sequence field fails after an accepted name: the name still sets the flag. */
  lemma StepSRejectsSequence(data: Text, numericId: Text -> bool, p: nat, st: PassState, name: Field)
    requires p < |data| && SNameField(data, p) == Some(name) && name.end < |data|
    requires CheckedNextField(data, name, false).None?
    ensures StepS(data, numericId, p, st)
         == (st.(sLines := st.sLines + [p], translate := st.translate || !numericId(Slice(data, name)), valid := false), None)
  {
  }

  /** An accepted S-line. */
  lemma StepSAccepts(data: Text, numericId: Text -> bool, p: nat, st: PassState, name: Field, sequence: Field)
    requires p < |data| && SNameField(data, p) == Some(name) && name.end < |data|
    requires CheckedNextField(data, name, false) == Some(sequence)
    ensures StepS(data, numericId, p, st)
         == (st.(sLines := st.sLines + [p], translate := st.translate || !numericId(Slice(data, name)),
                 maxSegmentLength := Larger(st.maxSegmentLength, sequence.end - sequence.begin)),
             Some(NextLineOf(data, sequence.end)))
  {
  }

  /** Once the record-type and name fields of a P-line pass, its fields are decided by the segment loop. */
  lemma PLineFieldsAfterName(data: Text, p: nat, f0: Field, name: Field)
    requires p < |data| && CheckedFirstField(data, p, true) == Some(f0) && CheckedNextField(data, f0, true) == Some(name)
    ensures name.end < |data|
    ensures PLineFields(data, p) == (if PathSubfields(data, name).None? then None
                                     else Some(PathFields(name, PathSubfields(data, name).value)))
  {
  }

  /** Once the five leading fields of a W-line pass, its fields are decided by the segment loop. */
  lemma WLineFieldsAfterNames(data: Text, p: nat, names: WalkNameFields)
    requires p < |data| && WLineNames(data, p) == Some(names)
    ensures StartWalk(names.end).end <= |data|
    ensures WLineFields(data, p) == (if WalkSubfields(data, StartWalk(names.end)).None? then None
                                     else Some(WalkFields(names, WalkSubfields(data, StartWalk(names.end)).value)))
  {
  }

  /** The leading fields of a W-line, each the field after the one before. */
  lemma WLineNamesChain(data: Text, p: nat)
    requires p < |data| && WLineNames(data, p).Some?
    ensures var n := WLineNames(data, p).value; var f0 := FirstFieldOf(data, p);
      && f0.end < |data| && n.sample == NextFieldOf(data, f0)
      && n.sample.end < |data| && n.haplotype == NextFieldOf(data, n.sample)
      && n.haplotype.end < |data| && n.contig == NextFieldOf(data, n.haplotype)
      && n.contig.end < |data| && n.start == NextFieldOf(data, n.contig)
  {
  }

  /** The end field of a W-line is the field after its start field. */
  lemma WLineEndFollowsStart(data: Text, p: nat)
    requires p <= |data| && WLineNames(data, p).Some?
    ensures WLineNames(data, p).value.start.end < |data|
    ensures WLineNames(data, p).value.end == NextFieldOf(data, WLineNames(data, p).value.start)
  {
  }

  /** A rejected P-line: recorded, file marked invalid. */
  lemma StepPRejects(data: Text, p: nat, st: PassState)
    requires p < |data| && PLineFields(data, p).None?
    ensures StepP(data, p, st) == (st.(pLines := st.pLines + [p], valid := false), None)
  {
  }

  /** An accepted P-line. */
  lemma StepPAccepts(data: Text, p: nat, st: PassState, pf: PathFields)
    requires p < |data| && PLineFields(data, p) == Some(pf)
    ensures StepP(data, p, st)
         == (st.(pLines := st.pLines + [p], maxPathLength := Larger(st.maxPathLength, |pf.segments|)),
             Some(NextLineOf(data, LastEnd(pf.segments))))
  {
  }

  /** A rejected W-line: recorded, file marked invalid. */
  lemma StepWRejects(data: Text, p: nat, st: PassState)
    requires p < |data| && WLineFields(data, p).None?
    ensures StepW(data, p, st) == (st.(wLines := st.wLines + [p], valid := false), None)
  {
  }

  /** An accepted W-line. */
  lemma StepWAccepts(data: Text, p: nat, st: PassState, wf: WalkFields)
    requires p < |data| && WLineFields(data, p) == Some(wf)
    ensures StepW(data, p, st)
         == (st.(wLines := st.wLines + [p], maxPathLength := Larger(st.maxPathLength, |wf.segments|)),
             Some(NextLineOf(data, LastEnd(wf.segments))))
  {
  }

  /**
    One round of the validating loop: dispatch on the line's first byte; any
    other byte skips the line unexamined. The next position lies strictly
    ahead; validity is never restored, the translation flag is never reset and
    the statistics never shrink.
   */
  function Step(data: Text, numericId: Text -> bool, i: nat, st: PassState): (r: (PassState, Option<nat>))
    requires i < |data|
    ensures r.1.Some? ==> i < r.1.value <= |data|
    ensures r.0.valid ==> st.valid
    ensures st.valid ==> (r.1.Some? <==> r.0.valid)
    ensures st.translate ==> r.0.translate
    ensures st.maxSegmentLength <= r.0.maxSegmentLength && st.maxPathLength <= r.0.maxPathLength
    ensures data[i] !in "SLPW" ==> r == (st, Some(NextLineOf(data, i)))
  {
    if data[i] == 'S' then StepS(data, numericId, i, st)
    else if data[i] == 'L' then StepL(data, i, st)
    else if data[i] == 'P' then StepP(data, i, st)
    else if data[i] == 'W' then StepW(data, i, st)
    else (st, Some(NextLineOf(data, i)))
  }

  /** The validating loop from position `i`: it stops at the end of the file or at the first failing line. */
  function Pass(data: Text, numericId: Text -> bool, i: nat, st: PassState): PassState
    requires i <= |data|
    decreases |data| - i
  {
    if i == |data| then st
    else
      var (st', next) := Step(data, numericId, i, st);
      if next.None? then st' else Pass(data, numericId, next.value, st')
  }

  /** A pass never restores validity, never resets the translation flag, and never shrinks a statistic. */
  lemma {:induction false} PassMonotone(data: Text, numericId: Text -> bool, i: nat, st: PassState)
    requires i <= |data|
    ensures var r := Pass(data, numericId, i, st);
      && (r.valid ==> st.valid)
      && (st.translate ==> r.translate)
      && st.maxSegmentLength <= r.maxSegmentLength && st.maxPathLength <= r.maxPathLength
    decreases |data| - i
  {
    if i < |data| {
      var (st', next) := Step(data, numericId, i, st);
      if next.Some? {
        PassMonotone(data, numericId, next.value, st');
      }
    }
  }

  // ---------------------------------------------------------------------------
  // Records handed to the replays' consumers

  datatype Segment = Segment(name: Text, sequence: Text)
  datatype Link = Link(from: Text, fromIsReverse: bool, to: Text, toIsReverse: bool)
  /** One segment of a path or walk: its name and orientation. */
  datatype Visit = Visit(name: Text, isReverse: bool)
  datatype Path = Path(name: Text, visits: seq<Visit>)
  /** The four name fields of a walk (`for_each_walk_name`). */
  datatype WalkName = WalkName(sample: Text, haplotype: Text, contig: Text, start: Text)
  datatype Walk = Walk(name: WalkName, visits: seq<Visit>)

  predicate SLinesOk(data: Text, lines: seq<nat>) {
    forall k :: 0 <= k < |lines| ==> lines[k] < |data| && SLineFields(data, lines[k]).Some?
  }

  predicate LLinesOk(data: Text, lines: seq<nat>) {
    forall k :: 0 <= k < |lines| ==> lines[k] < |data| && LLineFields(data, lines[k]).Some?
  }

  predicate PLinesOk(data: Text, lines: seq<nat>) {
    forall k :: 0 <= k < |lines| ==> lines[k] < |data| && PLineFields(data, lines[k]).Some?
  }

  predicate WLinesOk(data: Text, lines: seq<nat>) {
    forall k :: 0 <= k < |lines| ==> lines[k] < |data| && WLineFields(data, lines[k]).Some?
  }

  /** Every recorded line offset starts a well-formed record of its type. */
  predicate Recorded(data: Text, st: PassState) {
    SLinesOk(data, st.sLines) && LLinesOk(data, st.lLines) && PLinesOk(data, st.pLines) && WLinesOk(data, st.wLines)
  }

  /** What `for_each_segment` passes for the S-line at `p`: the name and the sequence. */
  function SegmentAt(data: Text, p: nat): Segment
    requires p < |data| && SLineFields(data, p).Some?
  {
    var sf := SLineFields(data, p).value;
    Segment(Slice(data, sf.name), Slice(data, sf.sequence))
  }

  /** What `for_each_link` passes for the L-line at `p`. */
  function LinkAt(data: Text, p: nat): Link
    requires p < |data| && LLineFields(data, p).Some?
  {
    var lf := LLineFields(data, p).value;
    Link(Slice(data, lf.from), IsReverseOrientation(data, lf.fromOrientation),
         Slice(data, lf.to), IsReverseOrientation(data, lf.toOrientation))
  }

  /** The `path_segment()` / `is_reverse_path_segment()` pairs of a list of valid path subfields. */
  function PathVisits(data: Text, subs: seq<Field>): (r: seq<Visit>)
    requires PathSegmentsValid(data, subs)
    ensures |r| == |subs|
  {
    seq(|subs|, k requires 0 <= k < |subs| && Proper(data, subs[k]) && ValidPathSegment(data, subs[k]) =>
      Visit(PathSegmentName(data, subs[k]), IsReversePathSegment(data, subs[k])))
  }

  /** The `walk_segment()` / `is_reverse_walk_segment()` pairs of a list of valid walk subfields. */
  function WalkVisits(data: Text, subs: seq<Field>): (r: seq<Visit>)
    requires WalkSegmentsValid(data, subs)
    ensures |r| == |subs|
  {
    seq(|subs|, k requires 0 <= k < |subs| && Proper(data, subs[k]) && ValidWalkSegment(data, subs[k]) =>
      Visit(WalkSegmentName(data, subs[k]), IsReverseWalkSegment(data, subs[k])))
  }

  /** What `for_each_path` passes for the P-line at `p`: the name, then every segment. */
  function PathAt(data: Text, p: nat): Path
    requires p < |data| && PLineFields(data, p).Some?
  {
    var pf := PLineFields(data, p).value;
    PathSubfieldsValid(data, pf.name);
    Path(Slice(data, pf.name), PathVisits(data, pf.segments))
  }

  /** The four name strings `for_each_walk_name` passes; the end field is skipped. */
  function WalkNameOf(data: Text, n: WalkNameFields): WalkName
    requires Proper(data, n.sample) && Proper(data, n.haplotype) && Proper(data, n.contig) && Proper(data, n.start)
  {
    WalkName(Slice(data, n.sample), Slice(data, n.haplotype), Slice(data, n.contig), Slice(data, n.start))
  }

  /** What `for_each_walk` passes for the W-line at `p`: the four name fields, then every segment. */
  function WalkAt(data: Text, p: nat): Walk
    requires p < |data| && WLineFields(data, p).Some?
  {
    var wf := WLineFields(data, p).value;
    WalkSubfieldsValid(data, StartWalk(wf.names.end));
    Walk(WalkNameOf(data, wf.names), WalkVisits(data, wf.segments))
  }

  function SegmentsAt(data: Text, lines: seq<nat>): (r: seq<Segment>)
    requires SLinesOk(data, lines)
    ensures |r| == |lines|
  {
    if lines == [] then [] else SegmentsAt(data, lines[..|lines| - 1]) + [SegmentAt(data, lines[|lines| - 1])]
  }

  function LinksAt(data: Text, lines: seq<nat>): (r: seq<Link>)
    requires LLinesOk(data, lines)
    ensures |r| == |lines|
  {
    if lines == [] then [] else LinksAt(data, lines[..|lines| - 1]) + [LinkAt(data, lines[|lines| - 1])]
  }

  function PathsAt(data: Text, lines: seq<nat>): (r: seq<Path>)
    requires PLinesOk(data, lines)
    ensures |r| == |lines|
  {
    if lines == [] then [] else PathsAt(data, lines[..|lines| - 1]) + [PathAt(data, lines[|lines| - 1])]
  }

  function WalksAt(data: Text, lines: seq<nat>): (r: seq<Walk>)
    requires WLinesOk(data, lines)
    ensures |r| == |lines|
  {
    if lines == [] then [] else WalksAt(data, lines[..|lines| - 1]) + [WalkAt(data, lines[|lines| - 1])]
  }

  /** The replayed records are the records of the recorded lines, one for one. */
  lemma {:induction false} SegmentsAtIndex(data: Text, lines: seq<nat>, i: nat)
    requires SLinesOk(data, lines) && i < |lines|
    ensures SegmentsAt(data, lines)[i] == SegmentAt(data, lines[i])
    decreases |lines|
  {
    if i < |lines| - 1 {
      var init := lines[..|lines| - 1];
      assert forall k :: 0 <= k < |init| ==> init[k] == lines[k];
      SegmentsAtIndex(data, init, i);
    }
  }

  /** The replayed records are the records of the recorded lines, one for one. */
  lemma {:induction false} LinksAtIndex(data: Text, lines: seq<nat>, i: nat)
    requires LLinesOk(data, lines) && i < |lines|
    ensures LinksAt(data, lines)[i] == LinkAt(data, lines[i])
    decreases |lines|
  {
    if i < |lines| - 1 {
      var init := lines[..|lines| - 1];
      assert forall k :: 0 <= k < |init| ==> init[k] == lines[k];
      LinksAtIndex(data, init, i);
    }
  }

  /** The replayed records are the records of the recorded lines, one for one. */
  lemma {:induction false} PathsAtIndex(data: Text, lines: seq<nat>, i: nat)
    requires PLinesOk(data, lines) && i < |lines|
    ensures PathsAt(data, lines)[i] == PathAt(data, lines[i])
    decreases |lines|
  {
    if i < |lines| - 1 {
      var init := lines[..|lines| - 1];
      assert forall k :: 0 <= k < |init| ==> init[k] == lines[k];
      PathsAtIndex(data, init, i);
    }
  }

  /** The replayed records are the records of the recorded lines, one for one. */
  lemma {:induction false} WalksAtIndex(data: Text, lines: seq<nat>, i: nat)
    requires WLinesOk(data, lines) && i < |lines|
    ensures WalksAt(data, lines)[i] == WalkAt(data, lines[i])
    decreases |lines|
  {
    if i < |lines| - 1 {
      var init := lines[..|lines| - 1];
      assert forall k :: 0 <= k < |init| ==> init[k] == lines[k];
      WalksAtIndex(data, init, i);
    }
  }

  // ---------------------------------------------------------------------------
  // The statistics, stated over the replayed records

  /** The largest element, 0 for none. */
  function Max(s: seq<nat>): nat {
    if s == [] then 0 else Larger(Max(s[..|s| - 1]), s[|s| - 1])
  }

  /** `Max` is the maximum: no element exceeds it, and a non-empty sequence attains it. */
  lemma {:induction false} MaxIsMaximum(s: seq<nat>)
    ensures forall k :: 0 <= k < |s| ==> s[k] <= Max(s)
    ensures s != [] ==> exists k :: 0 <= k < |s| && s[k] == Max(s)
    ensures s == [] ==> Max(s) == 0
  {
    if s != [] {
      var p := s[..|s| - 1];
      MaxIsMaximum(p);
      assert forall k :: 0 <= k < |p| ==> s[k] == p[k];
      if Max(s) != s[|s| - 1] {
        assert Max(s) == Max(p) && p != [];
        var k :| 0 <= k < |p| && p[k] == Max(p);
        assert s[k] == Max(s);
      }
    }
  }

  function SequenceLengths(segments: seq<Segment>): (r: seq<nat>)
    ensures |r| == |segments|
  {
    if segments == [] then []
    else SequenceLengths(segments[..|segments| - 1]) + [|segments[|segments| - 1].sequence|]
  }

  function PathLengths(paths: seq<Path>): (r: seq<nat>)
    ensures |r| == |paths|
  {
    if paths == [] then [] else PathLengths(paths[..|paths| - 1]) + [|paths[|paths| - 1].visits|]
  }

  function WalkLengths(walks: seq<Walk>): (r: seq<nat>)
    ensures |r| == |walks|
  {
    if walks == [] then [] else WalkLengths(walks[..|walks| - 1]) + [|walks[|walks| - 1].visits|]
  }

  /** Some segment name is not usable as a node identifier as it stands. */
  predicate SomeNameUnusable(numericId: Text -> bool, segments: seq<Segment>) {
    exists k :: 0 <= k < |segments| && !numericId(segments[k].name)
  }

  /** The segment statistics agree with the S-lines: the longest sequence, and whether some name is unusable. */
  predicate SegmentStats(data: Text, numericId: Text -> bool, st: PassState)
    requires SLinesOk(data, st.sLines)
  {
    var segments := SegmentsAt(data, st.sLines);
    && st.maxSegmentLength == Max(SequenceLengths(segments))
    && (st.translate <==> SomeNameUnusable(numericId, segments))
  }

  /** The path statistic agrees with the P- and W-lines: the most segments on one line. */
  predicate PathStats(data: Text, st: PassState)
    requires PLinesOk(data, st.pLines) && WLinesOk(data, st.wLines)
  {
    st.maxPathLength == Larger(Max(PathLengths(PathsAt(data, st.pLines))), Max(WalkLengths(WalksAt(data, st.wLines))))
  }

  /**
    The state agrees with the recorded lines: every line is well-formed, the two
    maxima are the maxima over the replayed records, and the translation flag is
    set exactly when some segment name is unusable.
   */
  predicate Summarizes(data: Text, numericId: Text -> bool, st: PassState) {
    Recorded(data, st) && SegmentStats(data, numericId, st) && PathStats(data, st)
  }

  lemma InitialSummarizes(data: Text, numericId: Text -> bool)
    ensures Summarizes(data, numericId, Initial)
  {
  }

  lemma SegmentsAppend(data: Text, lines: seq<nat>, p: nat)
    requires SLinesOk(data, lines) && p < |data| && SLineFields(data, p).Some?
    ensures SLinesOk(data, lines + [p])
    ensures SegmentsAt(data, lines + [p]) == SegmentsAt(data, lines) + [SegmentAt(data, p)]
  {
    assert (lines + [p])[..|lines|] == lines;
  }

  lemma PathsAppend(data: Text, lines: seq<nat>, p: nat)
    requires PLinesOk(data, lines) && p < |data| && PLineFields(data, p).Some?
    ensures PLinesOk(data, lines + [p])
    ensures PathsAt(data, lines + [p]) == PathsAt(data, lines) + [PathAt(data, p)]
  {
    assert (lines + [p])[..|lines|] == lines;
  }

  lemma WalksAppend(data: Text, lines: seq<nat>, p: nat)
    requires WLinesOk(data, lines) && p < |data| && WLineFields(data, p).Some?
    ensures WLinesOk(data, lines + [p])
    ensures WalksAt(data, lines + [p]) == WalksAt(data, lines) + [WalkAt(data, p)]
  {
    assert (lines + [p])[..|lines|] == lines;
  }

  lemma LinksAppend(data: Text, lines: seq<nat>, p: nat)
    requires LLinesOk(data, lines) && p < |data| && LLineFields(data, p).Some?
    ensures LLinesOk(data, lines + [p])
  {
    forall k | 0 <= k < |lines| + 1
      ensures (lines + [p])[k] < |data| && LLineFields(data, (lines + [p])[k]).Some?
    {
      if k < |lines| { assert (lines + [p])[k] == lines[k]; }
    }
  }

  /** What a successful `add_s_line` does to the state. */
  lemma StepSShape(data: Text, numericId: Text -> bool, p: nat, st: PassState)
    requires p < |data| && StepS(data, numericId, p, st).0.valid
    ensures SLineFields(data, p).Some?
    ensures var s := SegmentAt(data, p);
      StepS(data, numericId, p, st).0 == st.(sLines := st.sLines + [p],
                                            translate := st.translate || !numericId(s.name),
                                            maxSegmentLength := Larger(st.maxSegmentLength, |s.sequence|))
  {
  }

  /** What a successful `add_p_line` does to the state. */
  lemma StepPShape(data: Text, p: nat, st: PassState)
    requires p < |data| && StepP(data, p, st).0.valid
    ensures PLineFields(data, p).Some?
    ensures StepP(data, p, st).0 == st.(pLines := st.pLines + [p],
                                       maxPathLength := Larger(st.maxPathLength, |PathAt(data, p).visits|))
  {
  }

  /** What a successful `add_w_line` does to the state. */
  lemma StepWShape(data: Text, p: nat, st: PassState)
    requires p < |data| && StepW(data, p, st).0.valid
    ensures WLineFields(data, p).Some?
    ensures StepW(data, p, st).0 == st.(wLines := st.wLines + [p],
                                       maxPathLength := Larger(st.maxPathLength, |WalkAt(data, p).visits|))
  {
  }

  /** Recording a well-formed S-line and folding it into the statistics keeps the agreement. */
  lemma SegmentKeepsSummary(data: Text, numericId: Text -> bool, p: nat, st: PassState)
    requires p < |data| && Summarizes(data, numericId, st) && SLineFields(data, p).Some?
    ensures var s := SegmentAt(data, p);
      Summarizes(data, numericId, st.(sLines := st.sLines + [p],
                                     translate := st.translate || !numericId(s.name),
                                     maxSegmentLength := Larger(st.maxSegmentLength, |s.sequence|)))
  {
    var segs := SegmentsAt(data, st.sLines);
    var s := SegmentAt(data, p);
    SegmentsAppend(data, st.sLines, p);
    assert (segs + [s])[..|segs|] == segs;
    assert SequenceLengths(segs + [s]) == SequenceLengths(segs) + [|s.sequence|];
    assert (SequenceLengths(segs) + [|s.sequence|])[..|segs|] == SequenceLengths(segs);
    assert SomeNameUnusable(numericId, segs + [s]) <==> SomeNameUnusable(numericId, segs) || !numericId(s.name) by {
      if SomeNameUnusable(numericId, segs) {
        var k :| 0 <= k < |segs| && !numericId(segs[k].name);
        assert (segs + [s])[k] == segs[k];
      }
      if !numericId(s.name) {
        assert (segs + [s])[|segs|] == s;
      }
      if SomeNameUnusable(numericId, segs + [s]) {
        var k :| 0 <= k < |segs| + 1 && !numericId((segs + [s])[k].name);
        if k < |segs| { assert (segs + [s])[k] == segs[k]; }
      }
    }
  }

  /** Recording a well-formed P-line and folding in its length keeps the agreement. */
  lemma PathKeepsSummary(data: Text, numericId: Text -> bool, p: nat, st: PassState)
    requires p < |data| && Summarizes(data, numericId, st) && PLineFields(data, p).Some?
    ensures Summarizes(data, numericId, st.(pLines := st.pLines + [p],
                                           maxPathLength := Larger(st.maxPathLength, |PathAt(data, p).visits|)))
  {
    var ps := PathsAt(data, st.pLines);
    var x := PathAt(data, p);
    PathsAppend(data, st.pLines, p);
    assert (ps + [x])[..|ps|] == ps;
    assert PathLengths(ps + [x]) == PathLengths(ps) + [|x.visits|];
    assert (PathLengths(ps) + [|x.visits|])[..|ps|] == PathLengths(ps);
  }

  /** Recording a well-formed W-line and folding in its length keeps the agreement. */
  lemma WalkKeepsSummary(data: Text, numericId: Text -> bool, p: nat, st: PassState)
    requires p < |data| && Summarizes(data, numericId, st) && WLineFields(data, p).Some?
    ensures Summarizes(data, numericId, st.(wLines := st.wLines + [p],
                                           maxPathLength := Larger(st.maxPathLength, |WalkAt(data, p).visits|)))
  {
    var ws := WalksAt(data, st.wLines);
    var x := WalkAt(data, p);
    WalksAppend(data, st.wLines, p);
    assert (ws + [x])[..|ws|] == ws;
    assert WalkLengths(ws + [x]) == WalkLengths(ws) + [|x.visits|];
    assert (WalkLengths(ws) + [|x.visits|])[..|ws|] == WalkLengths(ws);
  }

  /** What a successful `add_l_line` does to the state. */
  lemma StepLShape(data: Text, p: nat, st: PassState)
    requires p < |data| && StepL(data, p, st).0.valid
    ensures LLineFields(data, p).Some?
    ensures StepL(data, p, st).0 == st.(lLines := st.lLines + [p])
  {
  }

  /** Recording a well-formed L-line keeps the agreement. */
  lemma LinkKeepsSummary(data: Text, numericId: Text -> bool, p: nat, st: PassState)
    requires p < |data| && Summarizes(data, numericId, st) && LLineFields(data, p).Some?
    ensures Summarizes(data, numericId, st.(lLines := st.lLines + [p]))
  {
    LinksAppend(data, st.lLines, p);
    var st' := st.(lLines := st.lLines + [p]);
    assert SegmentStats(data, numericId, st') == SegmentStats(data, numericId, st);
    assert PathStats(data, st') == PathStats(data, st);
  }

  /** A step that keeps the file valid keeps the state in agreement with the recorded lines. */
  lemma StepSummarizes(data: Text, numericId: Text -> bool, i: nat, st: PassState)
    requires i < |data| && Summarizes(data, numericId, st)
    requires Step(data, numericId, i, st).0.valid
    ensures Summarizes(data, numericId, Step(data, numericId, i, st).0)
  {
    if data[i] == 'S' {
      StepSShape(data, numericId, i, st);
      SegmentKeepsSummary(data, numericId, i, st);
    } else if data[i] == 'L' {
      StepLShape(data, i, st);
      LinkKeepsSummary(data, numericId, i, st);
    } else if data[i] == 'P' {
      StepPShape(data, i, st);
      PathKeepsSummary(data, numericId, i, st);
    } else if data[i] == 'W' {
      StepWShape(data, i, st);
      WalkKeepsSummary(data, numericId, i, st);
    }
  }

  /** One round of the loop: the pass from `i` is the pass from the next line, or the state where it stopped. */
  lemma PassUnfolds(data: Text, numericId: Text -> bool, i: nat, st: PassState)
    requires i < |data|
    ensures var r := Step(data, numericId, i, st);
      Pass(data, numericId, i, st) == if r.1.Some? then Pass(data, numericId, r.1.value, r.0) else r.0
  {
  }

  /** A pass that ends valid ends in a state that agrees with its recorded lines. */
  lemma {:induction false} PassSummarizes(data: Text, numericId: Text -> bool, i: nat, st: PassState)
    requires i <= |data| && st.valid && Summarizes(data, numericId, st)
    ensures Pass(data, numericId, i, st).valid ==> Summarizes(data, numericId, Pass(data, numericId, i, st))
    decreases |data| - i
  {
    if i < |data| {
      var r := Step(data, numericId, i, st);
      PassUnfolds(data, numericId, i, st);
      if r.0.valid {
        StepSummarizes(data, numericId, i, st);
        if r.1.Some? {
          PassSummarizes(data, numericId, r.1.value, r.0);
        }
      }
    }
  }
}
