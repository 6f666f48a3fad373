/** The document state of one text block: its characters, each with an
    optional entity key, the entity table, and the effect of the content
    operations the editor uses (create an entity, replace a range, insert
    text, remove a range). */
module Document {
  import opened Strings

  /** The three autocomplete kinds, each with its literal prefix. */
  datatype TriggerType = HASH | PERSON | REF

  function Prefix(t: TriggerType): (p: string)
    ensures 0 < |p| && NoSpace(p) && NoUpper(p)
  {
    match t
    case HASH => "#"
    case PERSON => "@"
    case REF => "<>"
  }

  /** The order in which the trigger detector tries the kinds. */
  const AutocompleteTypes: seq<TriggerType> := [HASH, PERSON, REF]

  /** A suggestion: display text and, for people, a thumbnail URL. */
  datatype SuggestionResult = SuggestionResult(text: string, img: Option<string>)

  type EntityKey = nat

  datatype Mutability = MUTABLE | IMMUTABLE

  /** An entity record. `data` is None for the empty data object a
      provisional entity is created with. */
  datatype Entity = Entity(kind: TriggerType, mutability: Mutability, data: Option<SuggestionResult>)

  /** JavaScript truthiness of `data.text`: present and non-empty. */
  predicate HasText(data: Option<SuggestionResult>) {
    data.Some? && data.value.text != ""
  }

  /** One character of the block and the entity it belongs to, if any. */
  datatype Cell = Cell(ch: char, entity: Option<EntityKey>)

  /** A content snapshot: the block's cells, the entity table, the key the
      next created entity receives, and the collapsed cursor offset that the
      last content operation leaves behind. */
  datatype Content = Content(cells: seq<Cell>, entities: map<EntityKey, Entity>, nextKey: nat, selectionAfter: nat)

  /** Every tagged character refers to an entity of the table, and every key
      in the table was handed out before `nextKey`. */
  predicate WellFormed(c: Content) {
    (forall i :: 0 <= i < |c.cells| && c.cells[i].entity.Some? ==> c.cells[i].entity.value in c.entities) &&
    (forall k :: k in c.entities ==> k < c.nextKey)
  }

  /** The block's text. */
  function Text(cells: seq<Cell>): (s: string)
    ensures |s| == |cells|
  {
    seq(|cells|, i requires 0 <= i < |cells| => cells[i].ch)
  }

  lemma TextAppend(a: seq<Cell>, b: seq<Cell>)
    ensures Text(a + b) == Text(a) + Text(b)
  {
    assert forall i :: 0 <= i < |a + b| ==> Text(a + b)[i] == (Text(a) + Text(b))[i];
  }

  lemma TextSlice(cells: seq<Cell>, i: nat, j: nat)
    requires i <= j <= |cells|
    ensures Text(cells[i..j]) == Text(cells)[i..j]
  {
  }

  /** `text` as cells that all carry `key`. */
  function Tagged(text: string, key: Option<EntityKey>): (cs: seq<Cell>)
    ensures |cs| == |text| && Text(cs) == text
    ensures forall i :: 0 <= i < |cs| ==> cs[i] == Cell(text[i], key)
  {
    seq(|text|, i requires 0 <= i < |text| => Cell(text[i], key))
  }

  // ----------------------------------------------------------------------
  // Lookups on the character list

  /** The character list's `get(i)`: a negative index counts back from the
      end of the list, anything else out of range is undefined. */
  function CharAt(cells: seq<Cell>, i: int): (r: Option<Cell>)
    ensures r.Some? <==> -|cells| <= i < |cells|
    ensures r.Some? ==> r.value in cells
    ensures 0 <= i < |cells| ==> r == Some(cells[i])
    ensures -|cells| <= i < 0 ==> r == Some(cells[|cells| + i])
  {
    if 0 <= i < |cells| then Some(cells[i])
    else if -|cells| <= i < 0 then Some(cells[|cells| + i])
    else None
  }

  /** The block's `getEntityAt(i)`: the entity of the character `get(i)` yields. */
  function EntityAt(cells: seq<Cell>, i: int): Option<EntityKey> {
    var cell := CharAt(cells, i);
    if cell.Some? then cell.value.entity else None
  }

  /** The start of the run of `k` that ends at offset `i`. */
  function RunStart(cells: seq<Cell>, k: EntityKey, i: nat): (s: nat)
    requires i <= |cells|
    ensures s <= i && forall j :: s <= j < i ==> cells[j].entity == Some(k)
    ensures s == 0 || cells[s - 1].entity != Some(k)
  {
    if i > 0 && cells[i - 1].entity == Some(k) then RunStart(cells, k, i - 1) else i
  }

  /** The end of the run of `k` that starts at offset `i`. */
  function RunEnd(cells: seq<Cell>, k: EntityKey, i: nat): (e: nat)
    requires i <= |cells|
    ensures i <= e <= |cells| && forall j :: i <= j < e ==> cells[j].entity == Some(k)
    ensures e == |cells| || cells[e].entity != Some(k)
    decreases |cells| - i
  {
    if i < |cells| && cells[i].entity == Some(k) then RunEnd(cells, k, i + 1) else i
  }

  // ----------------------------------------------------------------------
  // The content operations

  /** Adds an entity under the next key. */
  function CreateEntity(c: Content, kind: TriggerType, mutability: Mutability, data: Option<SuggestionResult>): (r: Content)
    ensures r.cells == c.cells && r.nextKey == c.nextKey + 1 && r.selectionAfter == c.selectionAfter
    ensures r.entities == c.entities[c.nextKey := Entity(kind, mutability, data)]
    ensures WellFormed(c) ==> WellFormed(r) && c.nextKey !in c.entities
  {
    c.(entities := c.entities[c.nextKey := Entity(kind, mutability, data)], nextKey := c.nextKey + 1)
  }

  /** The key of the entity created last. */
  function LastCreatedEntityKey(c: Content): (k: EntityKey)
    requires c.nextKey > 0
  {
    c.nextKey - 1
  }

  /** Characters `i` and `j` exist and carry the same entity of the table,
      which is not MUTABLE. */
  predicate SharedFixed(c: Content, i: int, j: int) {
    0 <= i < |c.cells| && 0 <= j < |c.cells| && c.cells[i].entity.Some? &&
    c.cells[j].entity == c.cells[i].entity && c.cells[i].entity.value in c.entities &&
    c.entities[c.cells[i].entity.value].mutability != MUTABLE
  }

  /** The entity that straddles offset `o`: the characters on both sides of
      `o` carry it and it is not MUTABLE. */
  function StraddlingEntity(c: Content, o: nat): (r: Option<EntityKey>)
    ensures r.Some? <==> 0 < o && SharedFixed(c, o - 1, o)
    ensures r.Some? ==> o < |c.cells| && c.cells[o - 1].entity == r && c.cells[o].entity == r
  {
    if 0 < o && SharedFixed(c, o - 1, o) then c.cells[o].entity else None
  }

  /** `y` is `x`, or `x` without its entity, which is then not MUTABLE. */
  predicate SameOrStripped(entities: map<EntityKey, Entity>, x: Cell, y: Cell) {
    y == x || (y == Cell(x.ch, None) && x.entity.Some? && x.entity.value in entities &&
               entities[x.entity.value].mutability != MUTABLE)
  }

  /** `ys` is `xs`, some characters stripped of a non-MUTABLE entity. */
  predicate StrippedCopy(entities: map<EntityKey, Entity>, xs: seq<Cell>, ys: seq<Cell>) {
    |ys| == |xs| && forall i :: 0 <= i < |xs| ==> SameOrStripped(entities, xs[i], ys[i])
  }

  /** `ys` is `xs` with `[start, end)` replaced by `ins`: the characters
      before and after the range keep their order and text and lose at most
      a non-MUTABLE entity, and when `exact` they are unchanged. */
  predicate Spliced(entities: map<EntityKey, Entity>, xs: seq<Cell>, ys: seq<Cell>,
                    start: nat, end: nat, ins: seq<Cell>, exact: bool) {
    start <= end <= |xs| && |ys| == |xs| - (end - start) + |ins| &&
    ys[start..start + |ins|] == ins &&
    StrippedCopy(entities, xs[..start], ys[..start]) &&
    StrippedCopy(entities, xs[end..], ys[start + |ins|..]) &&
    (exact ==> ys == xs[..start] + ins + xs[end..])
  }

  /** A splice that is exact under a condition is exact under a stronger one. */
  lemma SplicedWeaken(entities: map<EntityKey, Entity>, xs: seq<Cell>, ys: seq<Cell>,
                      start: nat, end: nat, ins: seq<Cell>, ex1: bool, ex2: bool)
    requires Spliced(entities, xs, ys, start, end, ins, ex1) && (ex2 ==> ex1)
    ensures Spliced(entities, xs, ys, start, end, ins, ex2)
  {
  }

  /** The `q`-th inserted character of a splice. */
  lemma SplicedInserted(entities: map<EntityKey, Entity>, xs: seq<Cell>, ys: seq<Cell>,
                        start: nat, end: nat, ins: seq<Cell>, exact: bool, q: nat)
    requires Spliced(entities, xs, ys, start, end, ins, exact) && q < |ins|
    ensures start + q < |ys| && ys[start + q] == ins[q]
  {
    assert ys[start..start + |ins|][q] == ys[start + q];
  }

  /** The `q`-th character after a splice's range is the `q`-th one after
      the inserted text, or it stripped. */
  lemma SplicedSuffix(entities: map<EntityKey, Entity>, xs: seq<Cell>, ys: seq<Cell>,
                      start: nat, end: nat, ins: seq<Cell>, exact: bool, q: nat)
    requires Spliced(entities, xs, ys, start, end, ins, exact) && end + q < |xs|
    ensures start + |ins| + q < |ys| && SameOrStripped(entities, xs[end + q], ys[start + |ins| + q])
  {
    assert xs[end..][q] == xs[end + q];
    assert ys[start + |ins|..][q] == ys[start + |ins| + q];
  }

  lemma StrippedCopySlice(entities: map<EntityKey, Entity>, xs: seq<Cell>, ys: seq<Cell>, a: nat, b: nat)
    requires StrippedCopy(entities, xs, ys) && a <= b <= |xs|
    ensures StrippedCopy(entities, xs[a..b], ys[a..b])
  {
    forall i | 0 <= i < b - a
      ensures SameOrStripped(entities, xs[a..b][i], ys[a..b][i])
    {
      assert xs[a..b][i] == xs[a + i] && ys[a..b][i] == ys[a + i];
    }
  }

  /** Stripping twice is stripping once. */
  lemma StrippedCopyTrans(entities: map<EntityKey, Entity>, xs: seq<Cell>, ys: seq<Cell>, zs: seq<Cell>)
    requires StrippedCopy(entities, xs, ys) && StrippedCopy(entities, ys, zs)
    ensures StrippedCopy(entities, xs, zs)
  {
  }

  /** Stripping keeps the text. */
  lemma StrippedCopyText(entities: map<EntityKey, Entity>, xs: seq<Cell>, ys: seq<Cell>)
    requires StrippedCopy(entities, xs, ys)
    ensures Text(ys) == Text(xs)
  {
    assert forall i :: 0 <= i < |xs| ==> Text(ys)[i] == ys[i].ch == xs[i].ch == Text(xs)[i];
  }

  /** A stripped copy of well-formed content is well formed. */
  lemma StrippedWellFormed(c: Content, cells: seq<Cell>)
    requires WellFormed(c) && StrippedCopy(c.entities, c.cells, cells)
    ensures WellFormed(c.(cells := cells))
  {
    forall i | 0 <= i < |cells| && cells[i].entity.Some?
      ensures cells[i].entity.value in c.entities
    {
      assert SameOrStripped(c.entities, c.cells[i], cells[i]);
    }
  }

  /** draft-js's `removeEntitiesAtEdges` at one edge `o`: the run of the
      entity that straddles `o`, if any, loses its entity. */
  function StripAtEdge(c: Content, o: nat): (r: Content)
    ensures r.entities == c.entities && r.nextKey == c.nextKey && r.selectionAfter == c.selectionAfter
    ensures |r.cells| == |c.cells|
    ensures StraddlingEntity(c, o).None? ==> r == c
  {
    match StraddlingEntity(c, o)
    case None => c
    case Some(k) =>
      var s := RunStart(c.cells, k, o);
      var e := RunEnd(c.cells, k, o);
      c.(cells := seq(|c.cells|, i requires 0 <= i < |c.cells| =>
           if s <= i < e then Cell(c.cells[i].ch, None) else c.cells[i]))
  }

  /** Stripping only drops a non-MUTABLE entity from some characters, so
      the text stays and well-formed content stays well formed. */
  lemma StripAtEdgeCopy(c: Content, o: nat)
    ensures var r := StripAtEdge(c, o);
      StrippedCopy(c.entities, c.cells, r.cells) && Text(r.cells) == Text(c.cells) &&
      (WellFormed(c) ==> WellFormed(r))
  {
    var r := StripAtEdge(c, o);
    assert StrippedCopy(c.entities, c.cells, r.cells);
    StrippedCopyText(c.entities, c.cells, r.cells);
    if WellFormed(c) {
      StrippedWellFormed(c, r.cells);
    }
  }

  /** Stripping at `o` untags exactly the run of the straddling entity,
      which surrounds `o`, and afterwards nothing straddles `o`. */
  lemma StripAtEdgeRun(c: Content, o: nat)
    ensures var r := StripAtEdge(c, o);
      StraddlingEntity(c, o).Some? ==>
        var k := StraddlingEntity(c, o).value;
        var s := RunStart(c.cells, k, o);
        var e := RunEnd(c.cells, k, o);
        s < o < e &&
        (forall i :: s <= i < e ==> r.cells[i] == Cell(c.cells[i].ch, None)) &&
        (forall i :: 0 <= i < |c.cells| && !(s <= i < e) ==> r.cells[i] == c.cells[i])
    ensures StraddlingEntity(StripAtEdge(c, o), o).None?
  {
    var r := StripAtEdge(c, o);
    if StraddlingEntity(c, o).Some? {
      var k := StraddlingEntity(c, o).value;
      var e := RunEnd(c.cells, k, o);
      assert r.cells[o - 1].entity.None?;
    }
  }

  /** Both edges of `[start, end)`, the start first. */
  function StripAtEdges(c: Content, start: nat, end: nat): (r: Content)
    ensures r.entities == c.entities && r.nextKey == c.nextKey && r.selectionAfter == c.selectionAfter
    ensures |r.cells| == |c.cells|
    ensures StraddlingEntity(c, start).None? && StraddlingEntity(c, end).None? ==> r == c
  {
    StripAtEdge(StripAtEdge(c, start), end)
  }

  lemma StripAtEdgesCopy(c: Content, start: nat, end: nat)
    ensures var r := StripAtEdges(c, start, end);
      StrippedCopy(c.entities, c.cells, r.cells) && Text(r.cells) == Text(c.cells) &&
      (WellFormed(c) ==> WellFormed(r))
  {
    var c1 := StripAtEdge(c, start);
    StripAtEdgeCopy(c, start);
    StripAtEdgeCopy(c1, end);
    StrippedCopyTrans(c.entities, c.cells, c1.cells, StripAtEdge(c1, end).cells);
  }

  /** Replacing `[start, end)` of cells that refer to the table by cells
      that do keeps the content well formed. */
  lemma SpliceWellFormed(c: Content, start: nat, end: nat, ins: seq<Cell>)
    requires WellFormed(c) && start <= end <= |c.cells|
    requires forall i :: 0 <= i < |ins| && ins[i].entity.Some? ==> ins[i].entity.value in c.entities
    ensures WellFormed(c.(cells := c.cells[..start] + ins + c.cells[end..]))
  {
    var cells := c.cells[..start] + ins + c.cells[end..];
    forall i | 0 <= i < |cells| && cells[i].entity.Some?
      ensures cells[i].entity.value in c.entities
    {
      if i >= start + |ins| {
        assert cells[i] == c.cells[i - |ins| + end - start];
      }
    }
  }

  /** The three parts of a splice. */
  lemma SpliceParts(xs: seq<Cell>, start: nat, end: nat, ins: seq<Cell>)
    requires start <= end <= |xs|
    ensures var r := xs[..start] + ins + xs[end..];
      r[..start] == xs[..start] && r[start..start + |ins|] == ins && r[start + |ins|..] == xs[end..]
  {
    var r := xs[..start] + ins + xs[end..];
    assert r[..start] == xs[..start];
    assert r[start..start + |ins|] == ins;
    assert r[start + |ins|..] == xs[end..];
  }

  /** A stripped copy's head and tail are stripped copies. */
  lemma StrippedCopyEnds(entities: map<EntityKey, Entity>, xs: seq<Cell>, ys: seq<Cell>, start: nat, end: nat)
    requires StrippedCopy(entities, xs, ys) && start <= end <= |xs|
    ensures StrippedCopy(entities, xs[..start], ys[..start]) && StrippedCopy(entities, xs[end..], ys[end..])
  {
    StrippedCopySlice(entities, xs, ys, 0, start);
    StrippedCopySlice(entities, xs, ys, end, |xs|);
    assert xs[0..start] == xs[..start] && ys[0..start] == ys[..start];
    assert xs[end..|xs|] == xs[end..] && ys[end..|xs|] == ys[end..];
  }

  /** The text of a splice is the splice of the texts. */
  lemma SpliceText(xs: seq<Cell>, start: nat, end: nat, ins: seq<Cell>)
    requires start <= end <= |xs|
    ensures Text(xs[..start] + ins + xs[end..]) == Text(xs)[..start] + Text(ins) + Text(xs)[end..]
  {
    TextAppend(xs[..start] + ins, xs[end..]);
    TextAppend(xs[..start], ins);
    TextSlice(xs, 0, start);
    TextSlice(xs, end, |xs|);
  }

  /** Replaces `[start, end)` by `text`, every new character carrying `key`,
      after stripping the entities that straddle the range's edges; the
      cursor is left after the inserted text. */
  function ReplaceText(c: Content, start: nat, end: nat, text: string, key: Option<EntityKey>): (r: Content)
    requires start <= end <= |c.cells|
    ensures r.entities == c.entities && r.nextKey == c.nextKey && r.selectionAfter == start + |text|
    ensures |r.cells| == |c.cells| - (end - start) + |text|
  {
    var c1 := StripAtEdges(c, start, end);
    c1.(cells := c1.cells[..start] + Tagged(text, key) + c1.cells[end..], selectionAfter := start + |text|)
  }

  /** After a replacement the text reads as the range replaced by `text`,
      and the characters are those of the content with the range replaced
      by `text` tagged with `key`; the characters around the range lose at
      most a non-MUTABLE entity, and none when nothing straddles an edge of
      the range. */
  lemma ReplaceTextLayout(c: Content, start: nat, end: nat, text: string, key: Option<EntityKey>)
    requires start <= end <= |c.cells|
    ensures var r := ReplaceText(c, start, end, text, key);
      Text(r.cells) == Text(c.cells)[..start] + text + Text(c.cells)[end..] &&
      Spliced(c.entities, c.cells, r.cells, start, end, Tagged(text, key),
              StraddlingEntity(c, start).None? && StraddlingEntity(c, end).None?)
  {
    var c1 := StripAtEdges(c, start, end);
    var ins := Tagged(text, key);
    StripAtEdgesCopy(c, start, end);
    SpliceParts(c1.cells, start, end, ins);
    SpliceText(c1.cells, start, end, ins);
    StrippedCopyEnds(c.entities, c.cells, c1.cells, start, end);
  }

  /** A replacement whose key is in the table keeps the content well formed. */
  lemma ReplaceTextWellFormed(c: Content, start: nat, end: nat, text: string, key: Option<EntityKey>)
    requires start <= end <= |c.cells|
    requires WellFormed(c) && (key.Some? ==> key.value in c.entities)
    ensures WellFormed(ReplaceText(c, start, end, text, key))
  {
    var c1 := StripAtEdges(c, start, end);
    StripAtEdgesCopy(c, start, end);
    SpliceWellFormed(c1, start, end, Tagged(text, key));
  }

  /** `x` capped at `n`, as a string or list `slice` caps its offsets. */
  function Cap(x: nat, n: nat): (r: nat)
    ensures r <= n && r <= x && (r == x || r == n)
  {
    if x <= n then x else n
  }

  /** Inserts untagged `text` at offset `at`: a replacement of the empty
      range, after stripping the entity that straddles `at`. Past the block's
      end the text is appended; the cursor is left `|text|` after `at`. */
  function InsertText(c: Content, at: nat, text: string): (r: Content)
    ensures r.entities == c.entities && r.nextKey == c.nextKey
    ensures |r.cells| == |c.cells| + |text| && r.selectionAfter == at + |text|
  {
    var p := Cap(at, |c.cells|);
    ReplaceText(c, p, p, text, None).(selectionAfter := at + |text|)
  }

  /** After an insertion the text reads as `text` inserted at `at`, capped
      at the block's end, and the characters are those of the content with
      `text` spliced in untagged; the characters around it lose at most a
      non-MUTABLE entity, and none when nothing straddles the insertion
      point. */
  lemma InsertTextLayout(c: Content, at: nat, text: string)
    ensures var r := InsertText(c, at, text);
      var p := Cap(at, |c.cells|);
      Text(r.cells) == Text(c.cells)[..p] + text + Text(c.cells)[p..] &&
      Spliced(c.entities, c.cells, r.cells, p, p, Tagged(text, None), StraddlingEntity(c, at).None?)
  {
    var p := Cap(at, |c.cells|);
    assert StraddlingEntity(c, at) == StraddlingEntity(c, p);
    ReplaceTextLayout(c, p, p, text, None);
  }

  /** The splice part of `InsertTextLayout` alone. */
  lemma InsertTextSpliced(c: Content, at: nat, text: string)
    ensures Spliced(c.entities, c.cells, InsertText(c, at, text).cells, Cap(at, |c.cells|), Cap(at, |c.cells|),
                    Tagged(text, None), StraddlingEntity(c, at).None?)
  {
    InsertTextLayout(c, at, text);
  }

  /** The text part of `InsertTextLayout` alone. */
  lemma InsertTextText(c: Content, at: nat, text: string)
    ensures Text(InsertText(c, at, text).cells) ==
            Text(c.cells)[..Cap(at, |c.cells|)] + text + Text(c.cells)[Cap(at, |c.cells|)..]
  {
    InsertTextLayout(c, at, text);
  }

  lemma InsertTextWellFormed(c: Content, at: nat, text: string)
    requires WellFormed(c)
    ensures WellFormed(InsertText(c, at, text))
  {
    var p := Cap(at, |c.cells|);
    ReplaceTextWellFormed(c, p, p, text, None);
  }

  /** Removes `[s, e)`, `e` cut at the block's end, and leaves the cursor at
      `s`; an empty range changes nothing. */
  function Cut(c: Content, s: nat, e: nat): (r: Content)
    requires s <= e && s <= |c.cells|
    ensures r.entities == c.entities && r.nextKey == c.nextKey
    ensures |r.cells| == |c.cells| - (Cap(e, |c.cells|) - s)
  {
    if s == e then c else c.(cells := c.cells[..s] + c.cells[Cap(e, |c.cells|)..], selectionAfter := s)
  }

  /** Cutting leaves the characters before `s` followed by those from `e`
      on, so the text loses exactly `[s, e)`; well-formed content stays well
      formed. */
  lemma CutLayout(c: Content, s: nat, e: nat)
    requires s <= e && s <= |c.cells|
    ensures var r := Cut(c, s, e);
      var stop := Cap(e, |c.cells|);
      r.cells == c.cells[..s] + c.cells[stop..] &&
      Text(r.cells) == Text(c.cells)[..s] + Text(c.cells)[stop..] &&
      (WellFormed(c) ==> WellFormed(r))
  {
    var stop := Cap(e, |c.cells|);
    assert c.cells == c.cells[..s] + c.cells[s..];
    SpliceText(c.cells, s, stop, []);
    if WellFormed(c) {
      SpliceWellFormed(c, s, stop, []);
    }
  }

  /** draft-js's `removeRange` on `[start, end)`. When the characters at
      `start` and `end - 1` carry the same entity, no edge is stripped: a
      MUTABLE entity loses just the range, any other loses its whole run
      around `start`. Otherwise the entities straddling the edges are
      stripped and the range is removed. */
  function RemoveRange(c: Content, start: nat, end: nat): (r: Content)
    requires start <= end && start <= |c.cells|
    requires WellFormed(c)
    ensures r.entities == c.entities && r.nextKey == c.nextKey
  {
    var k := EntityAt(c.cells, start);
    if k.Some? && k == EntityAt(c.cells, end - 1) then
      if c.entities[k.value].mutability == MUTABLE then Cut(c, start, end)
      else Cut(c, RunStart(c.cells, k.value, start), RunEnd(c.cells, k.value, start))
    else
      Cut(StripAtEdges(c, start, end), start, end)
  }

  lemma RemoveRangeWellFormed(c: Content, start: nat, end: nat)
    requires start <= end && start <= |c.cells|
    requires WellFormed(c)
    ensures WellFormed(RemoveRange(c, start, end))
  {
    var k := EntityAt(c.cells, start);
    if k.Some? && k == EntityAt(c.cells, end - 1) {
      CutLayout(c, start, end);
      CutLayout(c, RunStart(c.cells, k.value, start), RunEnd(c.cells, k.value, start));
    } else {
      StripAtEdgesCopy(c, start, end);
      CutLayout(StripAtEdges(c, start, end), start, end);
    }
  }

  /** A range inside one entity: a MUTABLE entity loses exactly the range,
      any other loses its whole run around `start`, which holds the range's
      first character. */
  lemma RemoveRangeInside(c: Content, start: nat, end: nat)
    requires start <= end && start <= |c.cells|
    requires WellFormed(c)
    requires EntityAt(c.cells, start).Some? && EntityAt(c.cells, start) == EntityAt(c.cells, end - 1)
    ensures var r := RemoveRange(c, start, end);
      var k := EntityAt(c.cells, start).value;
      if c.entities[k].mutability == MUTABLE then
        r.cells == c.cells[..start] + c.cells[Cap(end, |c.cells|)..]
      else
        var s := RunStart(c.cells, k, start);
        var e := RunEnd(c.cells, k, start);
        s <= start < e && r.cells == c.cells[..s] + c.cells[e..]
  {
    var k := EntityAt(c.cells, start).value;
    if c.entities[k].mutability == MUTABLE {
      CutLayout(c, start, end);
    } else {
      CutLayout(c, RunStart(c.cells, k, start), RunEnd(c.cells, k, start));
    }
  }

  /** A range whose first and last characters do not share an entity is
      removed by stripping the entities that straddle its edges and cutting
      it. */
  lemma RemoveRangeCutsStripped(c: Content, start: nat, end: nat)
    requires start <= end && start <= |c.cells|
    requires WellFormed(c)
    requires !(EntityAt(c.cells, start).Some? && EntityAt(c.cells, start) == EntityAt(c.cells, end - 1))
    ensures RemoveRange(c, start, end).cells ==
      StripAtEdges(c, start, end).cells[..start] + StripAtEdges(c, start, end).cells[Cap(end, |c.cells|)..]
  {
    StripAtEdgesCopy(c, start, end);
  }

  /** A range whose first and last characters do not share an entity: the
      entities straddling its edges are stripped and it is cut, so the text
      loses exactly the range and the characters before and after it remain,
      at most stripped of a non-MUTABLE entity, and exactly when nothing
      straddles an edge. */
  lemma RemoveRangeAcross(c: Content, start: nat, end: nat)
    requires start <= end && start <= |c.cells|
    requires WellFormed(c)
    requires !(EntityAt(c.cells, start).Some? && EntityAt(c.cells, start) == EntityAt(c.cells, end - 1))
    ensures var r := RemoveRange(c, start, end);
      var stop := Cap(end, |c.cells|);
      r.cells == StripAtEdges(c, start, end).cells[..start] + StripAtEdges(c, start, end).cells[stop..] &&
      Text(r.cells) == Text(c.cells)[..start] + Text(c.cells)[stop..] &&
      Spliced(c.entities, c.cells, r.cells, start, stop, [],
              StraddlingEntity(c, start).None? && StraddlingEntity(c, end).None?)
  {
    var c1 := StripAtEdges(c, start, end);
    StripAtEdgesCopy(c, start, end);
    CutLayout(c1, start, end);
    CutSpliced(c.entities, c.cells, c1.cells, Cut(c1, start, end).cells, start, Cap(end, |c.cells|),
               StraddlingEntity(c, start).None? && StraddlingEntity(c, end).None?);
  }

  /** The text part of `RemoveRangeAcross` alone. */
  lemma RemoveRangeAcrossText(c: Content, start: nat, end: nat)
    requires start <= end && start <= |c.cells|
    requires WellFormed(c)
    requires !(EntityAt(c.cells, start).Some? && EntityAt(c.cells, start) == EntityAt(c.cells, end - 1))
    ensures Text(RemoveRange(c, start, end).cells) == Text(c.cells)[..start] + Text(c.cells)[Cap(end, |c.cells|)..]
  {
    RemoveRangeAcross(c, start, end);
  }

  /** The splice part of `RemoveRangeAcross` alone. */
  lemma RemoveRangeAcrossSpliced(c: Content, start: nat, end: nat)
    requires start <= end && start <= |c.cells|
    requires WellFormed(c)
    requires !(EntityAt(c.cells, start).Some? && EntityAt(c.cells, start) == EntityAt(c.cells, end - 1))
    ensures Spliced(c.entities, c.cells, RemoveRange(c, start, end).cells, start, Cap(end, |c.cells|), [],
                    StraddlingEntity(c, start).None? && StraddlingEntity(c, end).None?)
  {
    RemoveRangeAcross(c, start, end);
  }

  /** Cutting `[start, stop)` out of a stripped copy is a splice of nothing
      over that range. */
  lemma CutSpliced(entities: map<EntityKey, Entity>, xs: seq<Cell>, ys: seq<Cell>, rs: seq<Cell>,
                   start: nat, stop: nat, exact: bool)
    requires StrippedCopy(entities, xs, ys) && start <= stop <= |xs| && rs == ys[..start] + ys[stop..]
    requires exact ==> ys == xs
    ensures Spliced(entities, xs, rs, start, stop, [], exact)
  {
    StrippedCopyEnds(entities, xs, ys, start, stop);
    assert rs[..start] == ys[..start];
    assert rs[start..] == ys[stop..];
    assert rs[start..start] == [];
  }

  /** Inserting `sp` right after the middle part of `a + b + d`. */
  lemma InsertAfter<T>(a: seq<T>, b: seq<T>, d: seq<T>, x: seq<T>, r: seq<T>, sp: seq<T>)
    requires x == a + b + d && r == x[..|a| + |b|] + sp + x[|a| + |b|..]
    ensures r == a + b + sp + d && r == a + (b + sp) + d
  {
    assert x[..|a| + |b|] == a + b;
    assert x[|a| + |b|..] == d;
    assert a + b + sp == a + (b + sp);
  }

  /** A splice of `ins` followed by an insertion of `more` right after it
      is a splice of `ins + more`, provided the insertion strips nothing
      when `ins` is not empty. */
  lemma SplicedInsert(entities: map<EntityKey, Entity>, xs: seq<Cell>, ys: seq<Cell>, zs: seq<Cell>,
                      start: nat, end: nat, ins: seq<Cell>, more: seq<Cell>, ex1: bool, ex2: bool)
    requires Spliced(entities, xs, ys, start, end, ins, ex1)
    requires Spliced(entities, ys, zs, start + |ins|, start + |ins|, more, ex2)
    requires |ins| > 0 ==> ex2
    ensures Spliced(entities, xs, zs, start, end, ins + more, ex1 && ex2)
  {
    var q := start + |ins|;
    assert |ins + more| == |ins| + |more|;
    StrippedHead(entities, xs, ys, zs, start, q);
    StrippedCopyTrans(entities, xs[end..], ys[q..], zs[start + |ins + more|..]);
    InsertedMiddle(ys, zs, start, ins, more, ex2);
    if ex1 && ex2 {
      InsertAfter(xs[..start], ins, xs[end..], ys, zs, more);
    }
  }

  /** The part before `start` of a stripped copy of a stripped copy. */
  lemma StrippedHead(entities: map<EntityKey, Entity>, xs: seq<Cell>, ys: seq<Cell>, zs: seq<Cell>, start: nat, q: nat)
    requires start <= q <= |ys| && q <= |zs| && start <= |xs|
    requires StrippedCopy(entities, xs[..start], ys[..start]) && StrippedCopy(entities, ys[..q], zs[..q])
    ensures StrippedCopy(entities, xs[..start], zs[..start])
  {
    StrippedCopyEnds(entities, ys[..q], zs[..q], start, start);
    assert ys[..q][..start] == ys[..start] && zs[..q][..start] == zs[..start];
    StrippedCopyTrans(entities, xs[..start], ys[..start], zs[..start]);
  }

  /** What an insertion of `more` right after `ins` leaves at `ins`'s place. */
  lemma InsertedMiddle(ys: seq<Cell>, zs: seq<Cell>, start: nat, ins: seq<Cell>, more: seq<Cell>, exact: bool)
    requires start + |ins| <= |ys| && |zs| == |ys| + |more| && ys[start..start + |ins|] == ins
    requires zs[start + |ins|..start + |ins| + |more|] == more
    requires exact ==> zs == ys[..start + |ins|] + more + ys[start + |ins|..]
    requires |ins| > 0 ==> exact
    ensures zs[start..start + |ins + more|] == ins + more
  {
    var q := start + |ins|;
    if |ins| > 0 {
      assert zs[start..q] == ys[start..q];
    }
    assert zs[start..q + |more|] == zs[start..q] + zs[q..q + |more|];
  }
}
