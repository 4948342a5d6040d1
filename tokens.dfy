/**
  The zero-copy tokenizer over the mapped file as pure functions: byte positions
  stand for the source's `const char*` iterators, and a field is a range of
  positions with a flag saying whether another field or subfield follows on the
  same line. The imperative scanning loops of the file class are proved equal
  to these functions.
 */
module GfaTokens {
  import opened GfaBytes

  /** The three separator tables of the tokenizer. */
  datatype SeparatorClass = FieldEnds | SubfieldEnds | WalkSubfieldEnds

  /** Does byte `c` end a token of class `k`? */
  predicate Ends(k: SeparatorClass, c: Byte) {
    match k
    case FieldEnds => IsFieldSeparator(c)
    case SubfieldEnds => IsSubfieldSeparator(c)
    case WalkSubfieldEnds => IsWalkSubfieldSeparator(c)
  }

  /**
    `field_type` without the line number and record-type byte, which only feed
    diagnostics: the bytes `[begin, end)` and whether a further field or
    subfield follows.
   */
  datatype Field = Field(begin: nat, end: nat, hasNext: bool)

  /** The range lies in the file, and a field with a successor ends before the file does. */
  predicate Proper(data: Text, f: Field) {
    f.begin <= f.end <= |data| && (f.hasNext ==> f.end < |data|)
  }

  /** The field's bytes, `str()` / `view()`. */
  function Slice(data: Text, f: Field): Text
    requires Proper(data, f)
  {
    data[f.begin..f.end]
  }

  /** `[f.begin, f.end)` holds no byte of class `k`, and `f.end` is such a byte or the end of the file. */
  predicate Delimited(data: Text, f: Field, k: SeparatorClass)
    requires Proper(data, f)
  {
    && (forall m :: f.begin <= m < f.end ==> !Ends(k, data[m]))
    && (f.end < |data| ==> Ends(k, data[f.end]))
  }

  /** The first position at or after `i` holding a byte of class `k`, or the end of the file. */
  function ScanEnd(data: Text, i: nat, k: SeparatorClass): (j: nat)
    requires i <= |data|
    ensures i <= j <= |data|
    ensures j < |data| ==> Ends(k, data[j])
    decreases |data| - i
  {
    if i == |data| || Ends(k, data[i]) then i else ScanEnd(data, i + 1, k)
  }

  /** The scan passes over no byte of its class: it stops at the first one. */
  lemma {:induction false} ScanEndIsFirst(data: Text, i: nat, k: SeparatorClass)
    requires i <= |data|
    ensures forall m :: i <= m < ScanEnd(data, i, k) ==> !Ends(k, data[m])
    decreases |data| - i
  {
    if i < |data| && !Ends(k, data[i]) {
      ScanEndIsFirst(data, i + 1, k);
    }
  }

  /**
    `next_line`: one past the first newline at or after `i`, or the end of the
    file. It never moves backwards, and from inside the file always advances.
   */
  function NextLineOf(data: Text, i: nat): (j: nat)
    requires i <= |data|
    ensures i <= j <= |data|
    ensures i < |data| ==> i < j
    ensures j < |data| ==> data[j - 1] == '\n'
    decreases |data| - i
  {
    if i == |data| then i
    else if data[i] == '\n' then i + 1
    else NextLineOf(data, i + 1)
  }

  /** `next_line` skips no newline: the line it steps over holds one only at its end, if at all. */
  lemma {:induction false} NextLineIsFirst(data: Text, i: nat)
    requires i <= |data|
    ensures var j := NextLineOf(data, i);
      && (forall m :: i <= m < j - 1 ==> data[m] != '\n')
      && (i < j ==> (data[j - 1] == '\n' || (j == |data| && data[j - 1] != '\n' && forall m :: i <= m < j ==> data[m] != '\n')))
    decreases |data| - i
  {
    if i < |data| && data[i] != '\n' {
      NextLineIsFirst(data, i + 1);
    }
  }

  /** `first_field`: the tab-separated field starting at the line start. */
  function FirstFieldOf(data: Text, start: nat): (f: Field)
    requires start <= |data|
    ensures Proper(data, f)
    ensures f.begin == start
    ensures f.hasNext <==> f.end < |data| && data[f.end] == '\t'
  {
    var limit := ScanEnd(data, start, FieldEnds);
    Field(start, limit, limit < |data| && data[limit] == '\t')
  }

  /** `next_field`: the tab-separated field starting one past the previous end. */
  function NextFieldOf(data: Text, f: Field): (g: Field)
    requires f.end < |data|
    ensures Proper(data, g)
    ensures g.begin == f.end + 1
    ensures g.hasNext <==> g.end < |data| && data[g.end] == '\t'
  {
    var limit := ScanEnd(data, f.end + 1, FieldEnds);
    Field(f.end + 1, limit, limit < |data| && data[limit] == '\t')
  }

  /** `next_subfield`: the comma-separated subfield starting one past the previous end. */
  function NextSubfieldOf(data: Text, f: Field): (g: Field)
    requires f.end < |data|
    ensures Proper(data, g)
    ensures g.begin == f.end + 1
    ensures g.hasNext <==> g.end < |data| && data[g.end] == ','
  {
    var limit := ScanEnd(data, f.end + 1, SubfieldEnds);
    Field(f.end + 1, limit, limit < |data| && data[limit] == ',')
  }

  /**
    `next_walk_subfield`: starts AT the previous end, so it includes its `<`/`>`
    glyph; it is empty when no glyph is there.
   */
  function NextWalkSubfieldOf(data: Text, f: Field): (g: Field)
    requires f.end <= |data|
    ensures Proper(data, g)
    ensures g.begin == f.end
    ensures !(f.end < |data| && IsWalkGlyph(data[f.end])) ==> g.end == g.begin
    ensures f.end < |data| && IsWalkGlyph(data[f.end]) ==>
      g.begin < g.end && (g.end < |data| ==> IsWalkSubfieldSeparator(data[g.end]))
    ensures g.hasNext <==> g.end < |data| && IsWalkGlyph(data[g.end])
  {
    var limit :=
      if f.end < |data| && IsWalkGlyph(data[f.end]) then ScanEnd(data, f.end + 1, WalkSubfieldEnds)
      else f.end;
    Field(f.end, limit, limit < |data| && IsWalkGlyph(data[limit]))
  }

  /** `start_walk`: step over the tab that precedes the walk's first subfield. */
  function StartWalk(f: Field): Field {
    f.(end := f.end + 1)
  }

  /** A field holds no field separator and ends at one or at the end of the file. */
  lemma FieldsDelimited(data: Text, start: nat, f: Field)
    requires start <= |data| && f.end < |data|
    ensures Delimited(data, FirstFieldOf(data, start), FieldEnds)
    ensures Delimited(data, NextFieldOf(data, f), FieldEnds)
  {
    ScanEndIsFirst(data, start, FieldEnds);
    ScanEndIsFirst(data, f.end + 1, FieldEnds);
  }

  /** A path subfield holds no tab, newline or comma and ends at one or at the end of the file. */
  lemma SubfieldDelimited(data: Text, f: Field)
    requires f.end < |data|
    ensures Delimited(data, NextSubfieldOf(data, f), SubfieldEnds)
  {
    ScanEndIsFirst(data, f.end + 1, SubfieldEnds);
  }

  /**
    A walk subfield is its glyph followed by bytes that are neither separators
    nor glyphs; it ends at a separator, at a glyph or at the end of the file.
   */
  lemma WalkSubfieldDelimited(data: Text, f: Field)
    requires f.end < |data| && IsWalkGlyph(data[f.end])
    ensures var g := NextWalkSubfieldOf(data, f);
      && (forall m :: g.begin < m < g.end ==> !IsWalkSubfieldSeparator(data[m]))
      && (g.end < |data| ==> IsWalkSubfieldSeparator(data[g.end]))
  {
    ScanEndIsFirst(data, f.end + 1, WalkSubfieldEnds);
  }

  // ---------------------------------------------------------------------------
  // The `field_type` predicates

  /** `valid_orientation`: one byte, `+` or `-`. */
  predicate ValidOrientation(data: Text, f: Field)
    requires Proper(data, f)
  {
    f.end - f.begin == 1 && (data[f.end - 1] == '-' || data[f.end - 1] == '+')
  }

  /** `is_reverse_orientation`. */
  predicate IsReverseOrientation(data: Text, f: Field)
    requires Proper(data, f) && f.begin < f.end
  {
    data[f.end - 1] == '-'
  }

  /** `valid_path_segment`: at least two bytes, the last one `+` or `-`. */
  predicate ValidPathSegment(data: Text, f: Field)
    requires Proper(data, f)
  {
    f.end - f.begin >= 2 && (data[f.end - 1] == '-' || data[f.end - 1] == '+')
  }

  /** `path_segment`: the subfield without its trailing orientation. */
  function PathSegmentName(data: Text, f: Field): Text
    requires Proper(data, f) && f.begin < f.end
  {
    data[f.begin..f.end - 1]
  }

  /** `is_reverse_path_segment`. */
  predicate IsReversePathSegment(data: Text, f: Field)
    requires Proper(data, f) && f.begin < f.end
  {
    data[f.end - 1] == '-'
  }

  /** `valid_walk_segment`: at least two bytes, the first one `<` or `>`. */
  predicate ValidWalkSegment(data: Text, f: Field)
    requires Proper(data, f)
  {
    f.end - f.begin >= 2 && IsWalkGlyph(data[f.begin])
  }

  /** `walk_segment`: the subfield without its leading orientation glyph. */
  function WalkSegmentName(data: Text, f: Field): Text
    requires Proper(data, f) && f.begin < f.end
  {
    data[f.begin + 1..f.end]
  }

  /** `is_reverse_walk_segment`. */
  predicate IsReverseWalkSegment(data: Text, f: Field)
    requires Proper(data, f) && f.begin < f.end
  {
    data[f.begin] == '<'
  }

  /** The orientation byte of a link or path segment. */
  function OrientationByte(isReverse: bool): Byte {
    if isReverse then '-' else '+'
  }

  /** The glyph that opens a walk segment. */
  function WalkGlyph(isReverse: bool): Byte {
    if isReverse then '<' else '>'
  }

  // ---------------------------------------------------------------------------
  // Record shape

  /** A link orientation is valid exactly when the field is the one byte `+` or the one byte `-`. */
  lemma OrientationSpelling(data: Text, f: Field)
    requires Proper(data, f)
    ensures ValidOrientation(data, f) <==> Slice(data, f) == ['+'] || Slice(data, f) == ['-']
    ensures ValidOrientation(data, f) ==> Slice(data, f) == [OrientationByte(IsReverseOrientation(data, f))]
  {
    if Slice(data, f) == ['+'] || Slice(data, f) == ['-'] {
      assert |Slice(data, f)| == 1 && data[f.end - 1] == Slice(data, f)[0];
    }
  }

  /** A valid path segment is a non-empty name followed by its orientation byte. */
  lemma PathSegmentSplits(data: Text, f: Field)
    requires Proper(data, f) && ValidPathSegment(data, f)
    ensures 1 <= |PathSegmentName(data, f)|
    ensures Slice(data, f) == PathSegmentName(data, f) + [OrientationByte(IsReversePathSegment(data, f))]
  {
  }

  /** Conversely, a non-empty name followed by `+` or `-` is a valid path segment that reads back as itself. */
  lemma SpelledPathSegment(data: Text, f: Field, name: Text, isReverse: bool)
    requires Proper(data, f)
    requires 1 <= |name| && Slice(data, f) == name + [OrientationByte(isReverse)]
    ensures ValidPathSegment(data, f)
    ensures PathSegmentName(data, f) == name
    ensures IsReversePathSegment(data, f) == isReverse
  {
    assert data[f.end - 1] == Slice(data, f)[|name|];
    assert PathSegmentName(data, f) == Slice(data, f)[..|name|];
  }

  /** A valid walk segment is its orientation glyph followed by a non-empty name. */
  lemma WalkSegmentSplits(data: Text, f: Field)
    requires Proper(data, f) && ValidWalkSegment(data, f)
    ensures 1 <= |WalkSegmentName(data, f)|
    ensures Slice(data, f) == [WalkGlyph(IsReverseWalkSegment(data, f))] + WalkSegmentName(data, f)
  {
  }

  /** Conversely, a glyph followed by a non-empty name is a valid walk segment that reads back as itself. */
  lemma SpelledWalkSegment(data: Text, f: Field, name: Text, isReverse: bool)
    requires Proper(data, f)
    requires 1 <= |name| && Slice(data, f) == [WalkGlyph(isReverse)] + name
    ensures ValidWalkSegment(data, f)
    ensures WalkSegmentName(data, f) == name
    ensures IsReverseWalkSegment(data, f) == isReverse
  {
    assert data[f.begin] == Slice(data, f)[0];
    assert WalkSegmentName(data, f) == Slice(data, f)[1..];
  }
}
