/**
  `GFAFile`: the memory-mapped file, its three separator tables, and the state the
  validating pass leaves behind (validity, the translation flag, the two
  statistics and the four line indexes). The constructor runs the pass; the
  replays re-tokenize the recorded lines without checks.

  Every scanning method is proved equal to its pure counterpart in `GfaTokens`,
  every line method to its step in `GfaLines`, and the constructor to
  `GfaLines.Pass`; the facts proved about those functions carry over.
 */
module GfaParser {
  import opened GfaBytes
  import opened GfaTokens
  import opened GfaLines
  import opened Optional
  import opened Separators
  import opened GfaEvents

  /** The accepted subfields of a do-while loop, given the ones already seen. */
  ghost function Prepend(seen: seq<Field>, rest: Option<seq<Field>>): Option<seq<Field>> {
    match rest
    case None => None
    case Some(fields) => Some(seen + fields)
  }

  lemma PrependNothing(rest: Option<seq<Field>>)
    ensures Prepend([], rest) == rest
  {
    if rest.Some? {
      assert [] + rest.value == rest.value;
    }
  }

  /** Accepting one more subfield `g` moves it from the rest of the list to the part already seen. */
  lemma PrependAdvances(seen: seq<Field>, g: Field, rest: Option<seq<Field>>)
    ensures Prepend(seen, if rest.None? then None else Some([g] + rest.value)) == Prepend(seen + [g], rest)
  {
    if rest.Some? {
      assert seen + ([g] + rest.value) == seen + [g] + rest.value;
    }
  }

  /** `field_end`: newline and tab end a field. */
  method FieldEndTable() returns (m: SeparatorMask)
    ensures fresh(m) && fresh(m.words) && m.Valid() && m.Members == {'\t', '\n'}
  {
    m := new SeparatorMask();
    m.Add('\n');
    m.Add('\t');
  }

  /** `subfield_end`: a comma also ends a subfield of a P-line. */
  method SubfieldEndTable() returns (m: SeparatorMask)
    ensures fresh(m) && fresh(m.words) && m.Valid() && m.Members == {'\t', '\n', ','}
  {
    m := new SeparatorMask();
    m.Add('\n');
    m.Add('\t');
    m.Add(',');
  }

  /** `walk_subfield_end`: the orientation glyphs end a subfield of a W-line. */
  method WalkSubfieldEndTable() returns (m: SeparatorMask)
    ensures fresh(m) && fresh(m.words) && m.Valid() && m.Members == {'\t', '\n', '<', '>'}
  {
    m := new SeparatorMask();
    m.Add('\n');
    m.Add('\t');
    m.Add('<');
    m.Add('>');
  }

  class GfaFile {
    /** The mapped bytes. */
    const data: Text
    /** Whether `std::stoul` accepts a name and yields a value other than 0. */
    const numericId: Text -> bool
    const fieldEnd: SeparatorMask
    const subfieldEnd: SeparatorMask
    const walkSubfieldEnd: SeparatorMask

    var validGfa: bool
    var translateSegmentIds: bool
    var maxSegmentLength: nat
    var maxPathLength: nat
    var sLines: seq<nat>
    var lLines: seq<nat>
    var pLines: seq<nat>
    var wLines: seq<nat>

    /** The fields the validating pass works on, as one value. */
    ghost function State(): PassState
      reads this
    {
      PassState(validGfa, translateSegmentIds, maxSegmentLength, maxPathLength, sLines, lLines, pLines, wLines)
    }

    /** The three tables hold exactly the separators the constructor adds. */
    ghost predicate TablesValid()
      reads fieldEnd, subfieldEnd, walkSubfieldEnd, fieldEnd.words, subfieldEnd.words, walkSubfieldEnd.words
    {
      && fieldEnd.Valid() && fieldEnd.Members == {'\t', '\n'}
      && subfieldEnd.Valid() && subfieldEnd.Members == {'\t', '\n', ','}
      && walkSubfieldEnd.Valid() && walkSubfieldEnd.Members == {'\t', '\n', '<', '>'}
    }

    /** While the file is valid, every recorded line starts a well-formed record of its type. */
    ghost predicate Consistent()
      reads this
    {
      validGfa ==> Recorded(data, State())
    }

    ghost predicate Valid()
      reads this, fieldEnd, subfieldEnd, walkSubfieldEnd, fieldEnd.words, subfieldEnd.words, walkSubfieldEnd.words
    {
      TablesValid() && Consistent()
    }

    /** `ok()`: the file is non-empty and passed validation (opening and mapping are not modelled). */
    predicate Ok()
      reads this
    {
      |data| > 0 && validGfa
    }

    // -------------------------------------------------------------------------
    // Scanning

    /** `next_line`. */
    method NextLine(iter: nat) returns (next: nat)
      requires iter <= |data|
      ensures next == NextLineOf(data, iter)
    {
      next := iter;
      while next != |data| && data[next] != '\n'
        invariant iter <= next <= |data|
        invariant NextLineOf(data, next) == NextLineOf(data, iter)
        decreases |data| - next
      {
        next := next + 1;
      }
      if next != |data| {
        next := next + 1;
      }
    }

    /** `first_field`: scan to the first table byte; the line start is a byte of the file. */
    method FirstField(lineStart: nat) returns (f: Field)
      requires TablesValid() && lineStart < |data|
      ensures f == FirstFieldOf(data, lineStart)
    {
      var limit := lineStart;
      while limit != |data|
        invariant lineStart <= limit <= |data|
        invariant ScanEnd(data, limit, FieldEnds) == ScanEnd(data, lineStart, FieldEnds)
        decreases |data| - limit
      {
        var stop := fieldEnd.Contains(data[limit]);
        if stop { break; }
        limit := limit + 1;
      }
      f := Field(lineStart, limit, limit != |data| && data[limit] == '\t');
    }

    /** `next_field`. */
    method NextField(field: Field) returns (f: Field)
      requires TablesValid() && field.end < |data|
      ensures f == NextFieldOf(data, field)
    {
      var limit := field.end + 1;
      while limit != |data|
        invariant field.end + 1 <= limit <= |data|
        invariant ScanEnd(data, limit, FieldEnds) == ScanEnd(data, field.end + 1, FieldEnds)
        decreases |data| - limit
      {
        var stop := fieldEnd.Contains(data[limit]);
        if stop { break; }
        limit := limit + 1;
      }
      f := Field(field.end + 1, limit, limit != |data| && data[limit] == '\t');
    }

    /** `next_subfield`. */
    method NextSubfield(field: Field) returns (f: Field)
      requires TablesValid() && field.end < |data|
      ensures f == NextSubfieldOf(data, field)
    {
      var limit := field.end + 1;
      while limit != |data|
        invariant field.end + 1 <= limit <= |data|
        invariant ScanEnd(data, limit, SubfieldEnds) == ScanEnd(data, field.end + 1, SubfieldEnds)
        decreases |data| - limit
      {
        var stop := subfieldEnd.Contains(data[limit]);
        if stop { break; }
        limit := limit + 1;
      }
      f := Field(field.end + 1, limit, limit != |data| && data[limit] == ',');
    }

    /** `next_walk_subfield`: a glyph at the previous end opens a subfield, which then runs to the next table byte. */
    method NextWalkSubfield(field: Field) returns (f: Field)
      requires TablesValid() && field.end <= |data|
      ensures f == NextWalkSubfieldOf(data, field)
    {
      var limit := field.end;
      if limit != |data| && (data[limit] == '<' || data[limit] == '>') {
        limit := limit + 1;
        while limit != |data|
          invariant field.end + 1 <= limit <= |data|
          invariant ScanEnd(data, limit, WalkSubfieldEnds) == ScanEnd(data, field.end + 1, WalkSubfieldEnds)
          decreases |data| - limit
        {
          var stop := walkSubfieldEnd.Contains(data[limit]);
          if stop { break; }
          limit := limit + 1;
        }
      }
      f := Field(field.end, limit, limit != |data| && (data[limit] == '<' || data[limit] == '>'));
    }

    /** `check_field`: an empty field, or a missing successor that is required, marks the file invalid. */
    method CheckField(field: Field, shouldHaveNext: bool) returns (ok: bool)
      requires field.begin <= field.end
      modifies this`validGfa
      ensures ok == FieldOk(field, shouldHaveNext)
      ensures validGfa == (old(validGfa) && ok)
    {
      if field.end - field.begin == 0 {
        validGfa := false;
        return false;
      }
      if shouldHaveNext && !field.hasNext {
        validGfa := false;
        return false;
      }
      return true;
    }

    // -------------------------------------------------------------------------
    // Validating one line

    /** `first_field` followed by `check_field`: None when the check fails, which also marks the file invalid. */
    method CheckedFirst(lineStart: nat, shouldHaveNext: bool) returns (r: Option<Field>)
      requires TablesValid() && lineStart < |data|
      modifies this`validGfa
      ensures r == CheckedFirstField(data, lineStart, shouldHaveNext)
      ensures validGfa == (old(validGfa) && r.Some?)
    {
      var field := FirstField(lineStart);
      var ok := CheckField(field, shouldHaveNext);
      r := if ok then Some(field) else None;
    }

    /** `next_field` followed by `check_field`. */
    method CheckedNext(field: Field, shouldHaveNext: bool) returns (r: Option<Field>)
      requires TablesValid() && field.end < |data|
      modifies this`validGfa
      ensures r == CheckedNextField(data, field, shouldHaveNext)
      ensures validGfa == (old(validGfa) && r.Some?)
    {
      var next := NextField(field);
      var ok := CheckField(next, shouldHaveNext);
      r := if ok then Some(next) else None;
    }

    /** `add_s_line`: None stands for the null iterator of a failed parse. */
    method AddSLine(iter: nat) returns (next: Option<nat>)
      requires TablesValid() && iter < |data|
      modifies this
      ensures (State(), next) == StepS(data, numericId, iter, old(State()))
    {
      ghost var st0 := State();
      sLines := sLines + [iter];
      var kind := CheckedFirst(iter, true);
      if kind.None? {
        StepSRejectsName(data, numericId, iter, st0);
        return None;
      }
      var name := CheckedNext(kind.value, true);
      if name.None? {
        StepSRejectsName(data, numericId, iter, st0);
        return None;
      }
      if !translateSegmentIds {
        if !numericId(data[name.value.begin..name.value.end]) {
          translateSegmentIds := true;
        }
      }
      var sequence := CheckedNext(name.value, false);
      if sequence.None? {
        StepSRejectsSequence(data, numericId, iter, st0, name.value);
        return None;
      }
      StepSAccepts(data, numericId, iter, st0, name.value, sequence.value);
      maxSegmentLength := Larger(maxSegmentLength, sequence.value.end - sequence.value.begin);
      var n := NextLine(sequence.value.end);
      return Some(n);
    }

    /** `add_l_line`. */
    method AddLLine(iter: nat) returns (next: Option<nat>)
      requires TablesValid() && iter < |data|
      modifies this
      ensures (State(), next) == StepL(data, iter, old(State()))
    {
      lLines := lLines + [iter];
      var kind := CheckedFirst(iter, true);
      if kind.None? {
        return None;
      }
      var from := CheckedNext(kind.value, true);
      if from.None? {
        return None;
      }
      var fromOrientation := CheckedNext(from.value, true);
      if fromOrientation.None? {
        return None;
      }
      if !ValidOrientation(data, fromOrientation.value) {
        validGfa := false;
        return None;
      }
      var to := CheckedNext(fromOrientation.value, true);
      if to.None? {
        return None;
      }
      var toOrientation := CheckedNext(to.value, false);
      if toOrientation.None? {
        return None;
      }
      if !ValidOrientation(data, toOrientation.value) {
        validGfa := false;
        return None;
      }
      assert LLineFields(data, iter) == Some(LinkFields(from.value, fromOrientation.value, to.value, toOrientation.value));
      var n := NextLine(toOrientation.value.end);
      return Some(n);
    }

    /**
      The do-while loop of `add_p_line`, from the name field on: read comma-separated
      segments until one has no successor. `ok` is false at the first invalid
      segment; otherwise `count` is the path length and `last` the final segment.
     */
    method PathSegments(name: Field) returns (ok: bool, count: nat, last: Field)
      requires TablesValid() && name.end < |data|
      ensures ok == PathSubfields(data, name).Some?
      ensures ok ==> count == |PathSubfields(data, name).value| && last.end == LastEnd(PathSubfields(data, name).value)
    {
      var field := name;
      ghost var seen: seq<Field> := [];
      PrependNothing(PathSubfields(data, field));
      count := 0;
      while true
        invariant field.end < |data|
        invariant count == |seen|
        invariant PathSubfields(data, name) == Prepend(seen, PathSubfields(data, field))
        decreases |data| - field.end
      {
        ghost var before := field;
        field := NextSubfield(field);
        if !ValidPathSegment(data, field) {
          assert PathSubfields(data, before).None?;
          return false, count, field;
        }
        count := count + 1;
        if !field.hasNext {
          assert PathSubfields(data, before) == Some([field]);
          assert PathSubfields(data, name) == Some(seen + [field]);
          return true, count, field;
        }
        PrependAdvances(seen, field, PathSubfields(data, field));
        seen := seen + [field];
      }
    }

    /** The same loop of `add_w_line`, over walk segments from `first`. */
    method WalkSegments(first: Field) returns (ok: bool, count: nat, last: Field)
      requires TablesValid() && first.end <= |data|
      ensures ok == WalkSubfields(data, first).Some?
      ensures ok ==> count == |WalkSubfields(data, first).value| && last.end == LastEnd(WalkSubfields(data, first).value)
    {
      var field := first;
      ghost var seen: seq<Field> := [];
      PrependNothing(WalkSubfields(data, field));
      count := 0;
      while true
        invariant field.end <= |data|
        invariant count == |seen|
        invariant WalkSubfields(data, first) == Prepend(seen, WalkSubfields(data, field))
        decreases |data| - field.end
      {
        ghost var before := field;
        field := NextWalkSubfield(field);
        if !ValidWalkSegment(data, field) {
          assert WalkSubfields(data, before).None?;
          return false, count, field;
        }
        count := count + 1;
        if !field.hasNext {
          assert WalkSubfields(data, before) == Some([field]);
          assert WalkSubfields(data, first) == Some(seen + [field]);
          return true, count, field;
        }
        PrependAdvances(seen, field, WalkSubfields(data, field));
        seen := seen + [field];
      }
    }

    /** `add_p_line`; the emptiness test after its do-while loop can never fire and is not modelled. */
    method AddPLine(iter: nat) returns (next: Option<nat>)
      requires TablesValid() && iter < |data|
      modifies this
      ensures (State(), next) == StepP(data, iter, old(State()))
    {
      ghost var st0 := State();
      pLines := pLines + [iter];
      var kind := CheckedFirst(iter, true);
      if kind.None? {
        StepPRejects(data, iter, st0);
        return None;
      }
      var name := CheckedNext(kind.value, true);
      if name.None? {
        StepPRejects(data, iter, st0);
        return None;
      }
      PLineFieldsAfterName(data, iter, kind.value, name.value);
      var ok, pathLength, last := PathSegments(name.value);
      if !ok {
        validGfa := false;
        StepPRejects(data, iter, st0);
        return None;
      }
      StepPAccepts(data, iter, st0, PathFields(name.value, PathSubfields(data, name.value).value));
      maxPathLength := Larger(maxPathLength, pathLength);
      var n := NextLine(last.end);
      return Some(n);
    }

    /** The five checked fields of a W-line after its record type: sample, haplotype, contig, start and end. */
    method CheckWalkNames(iter: nat) returns (r: Option<WalkNameFields>)
      requires TablesValid() && iter < |data|
      modifies this`validGfa
      ensures r == WLineNames(data, iter)
      ensures validGfa == (old(validGfa) && r.Some?)
    {
      var kind := CheckedFirst(iter, true);
      if kind.None? {
        return None;
      }
      var sample := CheckedNext(kind.value, true);
      if sample.None? {
        return None;
      }
      var haplotype := CheckedNext(sample.value, true);
      if haplotype.None? {
        return None;
      }
      var contig := CheckedNext(haplotype.value, true);
      if contig.None? {
        return None;
      }
      var start := CheckedNext(contig.value, true);
      if start.None? {
        return None;
      }
      var end := CheckedNext(start.value, true);
      if end.None? {
        return None;
      }
      return Some(WalkNameFields(sample.value, haplotype.value, contig.value, start.value, end.value));
    }

    /** `add_w_line`; as in `add_p_line`, the emptiness test is dead and not modelled. */
    method AddWLine(iter: nat) returns (next: Option<nat>)
      requires TablesValid() && iter < |data|
      modifies this
      ensures (State(), next) == StepW(data, iter, old(State()))
    {
      ghost var st0 := State();
      wLines := wLines + [iter];
      var names := CheckWalkNames(iter);
      if names.None? {
        StepWRejects(data, iter, st0);
        return None;
      }
      WLineFieldsAfterNames(data, iter, names.value);
      var first := StartWalk(names.value.end);
      var ok, pathLength, last := WalkSegments(first);
      if !ok {
        validGfa := false;
        StepWRejects(data, iter, st0);
        return None;
      }
      StepWAccepts(data, iter, st0, WalkFields(names.value, WalkSubfields(data, first).value));
      maxPathLength := Larger(maxPathLength, pathLength);
      var n := NextLine(last.end);
      return Some(n);
    }

    /** The `switch` of the validating loop: dispatch on the record type; any other line is skipped unexamined. */
    method AddLine(iter: nat) returns (next: Option<nat>)
      requires TablesValid() && iter < |data|
      modifies this
      ensures (State(), next) == Step(data, numericId, iter, old(State()))
    {
      if data[iter] == 'S' {
        next := AddSLine(iter);
      } else if data[iter] == 'L' {
        next := AddLLine(iter);
      } else if data[iter] == 'P' {
        next := AddPLine(iter);
      } else if data[iter] == 'W' {
        next := AddWLine(iter);
      } else {
        var n := NextLine(iter);
        next := Some(n);
      }
    }

    // -------------------------------------------------------------------------
    // Construction

    /**
      Build the separator tables, then validate the file line by line, stopping
      at the first line that fails. The resulting state is the pure pass's, and
      it agrees with the recorded lines while the file is valid.
     */
    constructor (data: Text, numericId: Text -> bool)
      ensures this.data == data && this.numericId == numericId
      ensures Valid()
      ensures State() == Pass(data, numericId, 0, Initial)
      ensures validGfa ==> Summarizes(data, numericId, State())
    {
      this.data := data;
      this.numericId := numericId;
      var f := FieldEndTable();
      var s := SubfieldEndTable();
      var w := WalkSubfieldEndTable();
      fieldEnd := f;
      subfieldEnd := s;
      walkSubfieldEnd := w;
      validGfa := true;
      translateSegmentIds := false;
      maxSegmentLength := 0;
      maxPathLength := 0;
      sLines := [];
      lLines := [];
      pLines := [];
      wLines := [];
      new;
      PassSummarizes(data, numericId, 0, Initial);
      var iter := 0;
      while iter != |data|
        invariant iter <= |data|
        invariant TablesValid() && validGfa
        invariant Pass(data, numericId, iter, State()) == Pass(data, numericId, 0, Initial)
        decreases |data| - iter
      {
        ghost var before := State();
        var next := AddLine(iter);
        PassUnfolds(data, numericId, iter, before);
        if next.None? {
          return;
        }
        iter := next.value;
      }
    }

    // -------------------------------------------------------------------------
    // Replays

    /** The records `for_each_segment` hands over, none unless the file is ok. */
    function Segments(): seq<Segment>
      reads this
      requires Consistent()
    {
      if Ok() then SegmentsAt(data, sLines) else []
    }

    function Links(): seq<Link>
      reads this
      requires Consistent()
    {
      if Ok() then LinksAt(data, lLines) else []
    }

    function Paths(): seq<Path>
      reads this
      requires Consistent()
    {
      if Ok() then PathsAt(data, pLines) else []
    }

    function Walks(): seq<Walk>
      reads this
      requires Consistent()
    {
      if Ok() then WalksAt(data, wLines) else []
    }

    /** `for_each_segment`: re-read the name and sequence of every recorded S-line, without checks. */
    method ForEachSegment(accept: seq<Segment> -> bool) returns (delivered: seq<Segment>)
      requires Valid()
      ensures delivered == Delivered(Segments(), accept)
    {
      ghost var events := Segments();
      delivered := [];
      StartTrack(events, accept);
      if !Ok() {
        TrackDone(events, accept, delivered);
        return;
      }
      var i := 0;
      while i < |sLines|
        invariant i <= |sLines| && |delivered| == i
        invariant OnTrack(events, accept, delivered)
      {
        SegmentsAtIndex(data, sLines, i);
        var segment := ReadSegment(sLines[i]);
        TrackStep(events, accept, delivered, segment);
        delivered := delivered + [segment];
        if !accept(delivered) {
          return;
        }
        i := i + 1;
      }
      TrackDone(events, accept, delivered);
    }

    /** `for_each_link`: the two segment names and whether each orientation is `-`. */
    method ForEachLink(accept: seq<Link> -> bool) returns (delivered: seq<Link>)
      requires Valid()
      ensures delivered == Delivered(Links(), accept)
    {
      ghost var events := Links();
      delivered := [];
      StartTrack(events, accept);
      if !Ok() {
        TrackDone(events, accept, delivered);
        return;
      }
      var i := 0;
      while i < |lLines|
        invariant i <= |lLines| && |delivered| == i
        invariant OnTrack(events, accept, delivered)
      {
        LinksAtIndex(data, lLines, i);
        var link := ReadLink(lLines[i]);
        TrackStep(events, accept, delivered, link);
        delivered := delivered + [link];
        if !accept(delivered) {
          return;
        }
        i := i + 1;
      }
      TrackDone(events, accept, delivered);
    }

    /** `for_each_path_name`: the name field of every recorded P-line. */
    method ForEachPathName(accept: seq<Text> -> bool) returns (delivered: seq<Text>)
      requires Valid()
      ensures delivered == Delivered(PathNames(Paths()), accept)
    {
      ghost var events := PathNames(Paths());
      delivered := [];
      StartTrack(events, accept);
      if !Ok() {
        TrackDone(events, accept, delivered);
        return;
      }
      var i := 0;
      while i < |pLines|
        invariant i <= |pLines| && |delivered| == i
        invariant OnTrack(events, accept, delivered)
      {
        PathsAtIndex(data, pLines, i);
        var name, _ := ReadPathName(pLines[i]);
        TrackStep(events, accept, delivered, name);
        delivered := delivered + [name];
        if !accept(delivered) {
          return;
        }
        i := i + 1;
      }
      TrackDone(events, accept, delivered);
    }

    /**
      The body of `for_each_path` for the recorded P-line at `p`: the name, each
      segment with its orientation, then the finishing call, stopping at the first
      rejection. `delivered0` is what earlier lines delivered.
     */
    method ReplayPath(p: nat, accept: seq<Event<Text>> -> bool, ghost events: seq<Event<Text>>, delivered0: seq<Event<Text>>)
      returns (delivered: seq<Event<Text>>, stopped: bool)
      requires TablesValid() && p < |data| && PLineFields(data, p).Some?
      requires OnTrack(events, accept, delivered0) && delivered0 + PathBlock(PathAt(data, p)) <= events
      ensures stopped ==> delivered == Delivered(events, accept)
      ensures !stopped ==> delivered == delivered0 + PathBlock(PathAt(data, p)) && OnTrack(events, accept, delivered)
    {
      ghost var path := PathAt(data, p);
      ghost var block := PathBlock(path);
      var name, field := ReadPathName(p);
      InBlock(events, delivered0, block, 0);
      TrackStep(events, accept, delivered0, Start(name));
      delivered := delivered0 + [Start(name)];
      if !accept(delivered) {
        return delivered, true;
      }
      PathSubfieldsValid(data, field);
      delivered, stopped := ReplayPathSegments(field, accept, events, delivered0, path.name, delivered);
      if stopped {
        return;
      }
      ghost var m := |path.visits| + 1;
      InBlock(events, delivered0, block, m);
      BlockAt(path.name, path.visits, m);
      TrackStep(events, accept, delivered, Finish);
      delivered := delivered + [Finish];
      if !accept(delivered) {
        return delivered, true;
      }
      assert block[..m + 1] == block;
      return delivered, false;
    }

    /** The do-while loop of `for_each_path`: one event per segment after the name field `name`. */
    method ReplayPathSegments(name: Field, accept: seq<Event<Text>> -> bool, ghost events: seq<Event<Text>>,
                              ghost base: seq<Event<Text>>, ghost title: Text, delivered0: seq<Event<Text>>)
      returns (delivered: seq<Event<Text>>, stopped: bool)
      requires TablesValid() && name.end < |data| && PathSubfields(data, name).Some?
      requires PathSegmentsValid(data, PathSubfields(data, name).value)
      requires base + Block(title, PathVisits(data, PathSubfields(data, name).value)) <= events
      requires delivered0 == base + [Start(title)] && OnTrack(events, accept, delivered0)
      ensures stopped ==> delivered == Delivered(events, accept)
      ensures !stopped ==> OnTrack(events, accept, delivered)
      ensures !stopped ==> delivered == base + Block(title, PathVisits(data, PathSubfields(data, name).value))[..|PathSubfields(data, name).value| + 1]
    {
      ghost var segments := PathSubfields(data, name).value;
      ghost var visits := PathVisits(data, segments);
      ghost var block := Block(title, visits);
      var field := name;
      delivered := delivered0;
      ghost var j := 0;
      assert segments[j..] == segments;
      assert block[..1] == [Start(title)];
      while true
        invariant j < |segments| && field.end < |data|
        invariant PathSubfields(data, field) == Some(segments[j..])
        invariant delivered == base + block[..j + 1]
        invariant OnTrack(events, accept, delivered)
        decreases |segments| - j
      {
        field := NextSubfield(field);
        assert field == segments[j];
        var visit := Visit(PathSegmentName(data, field), IsReversePathSegment(data, field));
        InBlock(events, base, block, j + 1);
        BlockAt(title, visits, j + 1);
        TrackStep(events, accept, delivered, Visited(visit));
        delivered := delivered + [Visited(visit)];
        if !accept(delivered) {
          return delivered, true;
        }
        if !field.hasNext {
          break;
        }
        assert segments[j + 1..] == segments[j..][1..];
        j := j + 1;
      }
      return delivered, false;
    }

    /** `for_each_path`: every recorded P-line's events, line by line. */
    method ForEachPath(accept: seq<Event<Text>> -> bool) returns (delivered: seq<Event<Text>>)
      requires Valid()
      ensures delivered == Delivered(PathEvents(Paths()), accept)
    {
      ghost var paths := Paths();
      ghost var events := PathEvents(paths);
      delivered := [];
      StartTrack(events, accept);
      if !Ok() {
        TrackDone(events, accept, delivered);
        return;
      }
      var i := 0;
      while i < |pLines|
        invariant i <= |pLines|
        invariant delivered == PathEvents(paths[..i])
        invariant OnTrack(events, accept, delivered)
      {
        PathsAtIndex(data, pLines, i);
        PathEventsNext(paths, i);
        PathEventsPrefix(paths, i + 1);
        var stopped;
        delivered, stopped := ReplayPath(pLines[i], accept, events, delivered);
        if stopped {
          return;
        }
        i := i + 1;
      }
      assert paths[..i] == paths;
      TrackDone(events, accept, delivered);
    }

    /**
      The body of `for_each_walk` for the recorded W-line at `p`: the four name
      fields, each segment with its orientation, then the finishing call, stopping
      at the first rejection.
     */
    method ReplayWalk(p: nat, accept: seq<Event<WalkName>> -> bool, ghost events: seq<Event<WalkName>>, delivered0: seq<Event<WalkName>>)
      returns (delivered: seq<Event<WalkName>>, stopped: bool)
      requires TablesValid() && p < |data| && WLineFields(data, p).Some?
      requires OnTrack(events, accept, delivered0) && delivered0 + WalkBlock(WalkAt(data, p)) <= events
      ensures stopped ==> delivered == Delivered(events, accept)
      ensures !stopped ==> delivered == delivered0 + WalkBlock(WalkAt(data, p)) && OnTrack(events, accept, delivered)
    {
      ghost var walk := WalkAt(data, p);
      ghost var block := WalkBlock(walk);
      var name := ReadWalkName(p);
      InBlock(events, delivered0, block, 0);
      TrackStep(events, accept, delivered0, Start(name.0));
      delivered := delivered0 + [Start(name.0)];
      if !accept(delivered) {
        return delivered, true;
      }
      WLineEndFollowsStart(data, p);
      var field := NextField(name.1);
      field := StartWalk(field);
      WalkSubfieldsValid(data, field);
      delivered, stopped := ReplayWalkSegments(field, accept, events, delivered0, walk.name, delivered);
      if stopped {
        return;
      }
      ghost var m := |walk.visits| + 1;
      InBlock(events, delivered0, block, m);
      BlockAt(walk.name, walk.visits, m);
      TrackStep(events, accept, delivered, Finish);
      delivered := delivered + [Finish];
      if !accept(delivered) {
        return delivered, true;
      }
      assert block[..m + 1] == block;
      return delivered, false;
    }

    /** The do-while loop of `for_each_walk`: one event per segment from `first` on. */
    method ReplayWalkSegments(first: Field, accept: seq<Event<WalkName>> -> bool, ghost events: seq<Event<WalkName>>,
                              ghost base: seq<Event<WalkName>>, ghost title: WalkName, delivered0: seq<Event<WalkName>>)
      returns (delivered: seq<Event<WalkName>>, stopped: bool)
      requires TablesValid() && first.end <= |data| && WalkSubfields(data, first).Some?
      requires WalkSegmentsValid(data, WalkSubfields(data, first).value)
      requires base + Block(title, WalkVisits(data, WalkSubfields(data, first).value)) <= events
      requires delivered0 == base + [Start(title)] && OnTrack(events, accept, delivered0)
      ensures stopped ==> delivered == Delivered(events, accept)
      ensures !stopped ==> OnTrack(events, accept, delivered)
      ensures !stopped ==> delivered == base + Block(title, WalkVisits(data, WalkSubfields(data, first).value))[..|WalkSubfields(data, first).value| + 1]
    {
      ghost var segments := WalkSubfields(data, first).value;
      ghost var visits := WalkVisits(data, segments);
      ghost var block := Block(title, visits);
      var field := first;
      delivered := delivered0;
      ghost var j := 0;
      assert segments[j..] == segments;
      assert block[..1] == [Start(title)];
      while true
        invariant j < |segments| && field.end <= |data|
        invariant WalkSubfields(data, field) == Some(segments[j..])
        invariant delivered == base + block[..j + 1]
        invariant OnTrack(events, accept, delivered)
        decreases |segments| - j
      {
        field := NextWalkSubfield(field);
        assert field == segments[j];
        var visit := Visit(WalkSegmentName(data, field), IsReverseWalkSegment(data, field));
        InBlock(events, base, block, j + 1);
        BlockAt(title, visits, j + 1);
        TrackStep(events, accept, delivered, Visited(visit));
        delivered := delivered + [Visited(visit)];
        if !accept(delivered) {
          return delivered, true;
        }
        if !field.hasNext {
          break;
        }
        assert segments[j + 1..] == segments[j..][1..];
        j := j + 1;
      }
      return delivered, false;
    }

    /** `for_each_walk`: every recorded W-line's events, line by line. */
    method ForEachWalk(accept: seq<Event<WalkName>> -> bool) returns (delivered: seq<Event<WalkName>>)
      requires Valid()
      ensures delivered == Delivered(WalkEvents(Walks()), accept)
    {
      ghost var walks := Walks();
      ghost var events := WalkEvents(walks);
      delivered := [];
      StartTrack(events, accept);
      if !Ok() {
        TrackDone(events, accept, delivered);
        return;
      }
      var i := 0;
      while i < |wLines|
        invariant i <= |wLines|
        invariant delivered == WalkEvents(walks[..i])
        invariant OnTrack(events, accept, delivered)
      {
        WalksAtIndex(data, wLines, i);
        WalkEventsNext(walks, i);
        WalkEventsPrefix(walks, i + 1);
        var stopped;
        delivered, stopped := ReplayWalk(wLines[i], accept, events, delivered);
        if stopped {
          return;
        }
        i := i + 1;
      }
      assert walks[..i] == walks;
      TrackDone(events, accept, delivered);
    }

    /** `for_each_walk_name`: the sample, haplotype, contig and start fields of every recorded W-line. */
    method ForEachWalkName(accept: seq<WalkName> -> bool) returns (delivered: seq<WalkName>)
      requires Valid()
      ensures delivered == Delivered(WalkNames(Walks()), accept)
    {
      ghost var events := WalkNames(Walks());
      delivered := [];
      StartTrack(events, accept);
      if !Ok() {
        TrackDone(events, accept, delivered);
        return;
      }
      var i := 0;
      while i < |wLines|
        invariant i <= |wLines| && |delivered| == i
        invariant OnTrack(events, accept, delivered)
      {
        WalksAtIndex(data, wLines, i);
        var name := ReadWalkName(wLines[i]);
        TrackStep(events, accept, delivered, name.0);
        delivered := delivered + [name.0];
        if !accept(delivered) {
          return;
        }
        i := i + 1;
      }
      TrackDone(events, accept, delivered);
    }

    /** The name and sequence fields of a recorded S-line. */
    method ReadSegment(p: nat) returns (s: Segment)
      requires TablesValid() && p < |data| && SLineFields(data, p).Some?
      ensures s == SegmentAt(data, p)
    {
      var field := FirstField(p);
      field := NextField(field);
      var name := data[field.begin..field.end];
      field := NextField(field);
      var sequence := data[field.begin..field.end];
      s := Segment(name, sequence);
    }

    /** The four fields of a recorded L-line, orientations as "is `-`". */
    method ReadLink(p: nat) returns (l: Link)
      requires TablesValid() && p < |data| && LLineFields(data, p).Some?
      ensures l == LinkAt(data, p)
    {
      var field := FirstField(p);
      field := NextField(field);
      var from := data[field.begin..field.end];
      field := NextField(field);
      var fromIsReverse := IsReverseOrientation(data, field);
      field := NextField(field);
      var to := data[field.begin..field.end];
      field := NextField(field);
      var toIsReverse := IsReverseOrientation(data, field);
      l := Link(from, fromIsReverse, to, toIsReverse);
    }

    /** The name field of a recorded P-line, and its text. */
    method ReadPathName(p: nat) returns (name: Text, field: Field)
      requires TablesValid() && p < |data| && PLineFields(data, p).Some?
      ensures field == PLineFields(data, p).value.name && name == PathAt(data, p).name
    {
      field := FirstField(p);
      field := NextField(field);
      name := data[field.begin..field.end];
    }

    /** The four name fields of a recorded W-line, and the start-position field that the end field follows. */
    method ReadWalkName(p: nat) returns (r: (WalkName, Field))
      requires TablesValid() && p < |data| && WLineNames(data, p).Some?
      ensures r.0 == WalkNameOf(data, WLineNames(data, p).value)
      ensures r.1 == WLineNames(data, p).value.start
    {
      WLineNamesChain(data, p);
      var field := FirstField(p);
      field := NextField(field);
      var sample := data[field.begin..field.end];
      field := NextField(field);
      var haplotype := data[field.begin..field.end];
      field := NextField(field);
      var contig := data[field.begin..field.end];
      field := NextField(field);
      var start := data[field.begin..field.end];
      r := (WalkName(sample, haplotype, contig, start), field);
    }
  }
}
