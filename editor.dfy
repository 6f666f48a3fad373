/** The editor's autocomplete-entity bookkeeping on the block that holds the
    cursor: which entity is being composed, when a typed prefix becomes a new
    provisional entity, and the commit and remove rewrites of the block. */
module Editor {
  import opened Strings
  import opened Document
  import opened KeyRouter

  /** Anchor and focus offsets within the block. */
  datatype Selection = Selection(anchor: nat, focus: nat)

  function Collapsed(offset: nat): Selection {
    Selection(offset, offset)
  }

  // ----------------------------------------------------------------------
  // Which entity is active at the cursor

  /** The entity being composed: the characters at `anchor - 1` and at
      `anchor` exist and carry the same entity. At offset 0 the character
      list's lookup of index -1 yields the last character of the block. */
  function ActiveEntity(cells: seq<Cell>, anchor: nat): (r: Option<EntityKey>)
    ensures r.Some? ==> anchor < |cells| && cells[anchor].entity == r
  {
    var meta := CharAt(cells, anchor);
    var prevMeta := CharAt(cells, anchor - 1);
    if meta.Some? && prevMeta.Some? && meta.value.entity == prevMeta.value.entity then meta.value.entity
    else None
  }

  /** Inside the block, an entity is active exactly when the characters on
      both sides of the cursor carry it. */
  lemma ActiveEntityInside(cells: seq<Cell>, anchor: nat, k: EntityKey)
    requires 0 < anchor
    ensures ActiveEntity(cells, anchor) == Some(k) <==>
      anchor < |cells| && cells[anchor - 1].entity == Some(k) && cells[anchor].entity == Some(k)
  {
  }

  /** At offset 0 the first and the last character are compared. */
  lemma ActiveEntityAtStart(cells: seq<Cell>, k: EntityKey)
    ensures ActiveEntity(cells, 0) == Some(k) <==>
      |cells| > 0 && cells[0].entity == Some(k) && cells[|cells| - 1].entity == Some(k)
  {
  }

  // ----------------------------------------------------------------------
  // Trigger detection

  /** The character before the cursor is missing or carries no entity. */
  predicate TriggerGuard(cells: seq<Cell>, anchor: nat) {
    var prevMeta := CharAt(cells, anchor - 1);
    prevMeta.None? || prevMeta.value.entity.None?
  }

  /** `blockText.slice(anchor - |p|, anchor) === p`; a negative start never
      matches, since the slice is then shorter than `p`. */
  predicate PrefixBeforeCursor(text: string, anchor: nat, p: string) {
    anchor - |p| >= 0 && anchor <= |text| && text[anchor - |p|..anchor] == p
  }

  /** Kind `t` triggers a new provisional entity at the cursor. */
  predicate Fires(cells: seq<Cell>, anchor: nat, t: TriggerType) {
    TriggerGuard(cells, anchor) && PrefixBeforeCursor(Text(cells), anchor, Prefix(t))
  }

  /** A trigger needs an untagged character before the cursor and the
      prefix right before the cursor; below the prefix length nothing fires. */
  lemma FiresIff(cells: seq<Cell>, anchor: nat, t: TriggerType)
    requires anchor <= |cells|
    ensures Fires(cells, anchor, t) <==>
      |Prefix(t)| <= anchor && cells[anchor - 1].entity.None? &&
      Text(cells)[anchor - |Prefix(t)|..anchor] == Prefix(t)
  {
  }

  /** A prefix right before the cursor puts its last character at `anchor - 1`. */
  lemma PrefixEndsBeforeCursor(text: string, anchor: nat, p: string)
    requires |p| > 0
    ensures PrefixBeforeCursor(text, anchor, p) ==> text[anchor - 1] == p[|p| - 1]
  {
    if PrefixBeforeCursor(text, anchor, p) {
      assert text[anchor - 1] == text[anchor - |p|..anchor][|p| - 1];
    }
  }

  /** The prefixes end in different characters, so at most one kind fires. */
  lemma AtMostOneFires(cells: seq<Cell>, anchor: nat, t1: TriggerType, t2: TriggerType)
    requires Fires(cells, anchor, t1) && Fires(cells, anchor, t2)
    ensures t1 == t2
  {
    var text := Text(cells);
    assert text[anchor - 1] == text[anchor - |Prefix(t1)|..anchor][|Prefix(t1)| - 1] == Prefix(t1)[|Prefix(t1)| - 1];
    assert text[anchor - 1] == text[anchor - |Prefix(t2)|..anchor][|Prefix(t2)| - 1] == Prefix(t2)[|Prefix(t2)| - 1];
  }

  /** The first of the first `i` kinds (in detection order) that fires. */
  function FirstFiring(cells: seq<Cell>, anchor: nat, i: nat): (r: Option<TriggerType>)
    requires i <= |AutocompleteTypes|
    ensures r.Some? ==> Fires(cells, anchor, r.value) && r.value in AutocompleteTypes[..i]
    ensures r.None? ==> forall j :: 0 <= j < i ==> !Fires(cells, anchor, AutocompleteTypes[j])
  {
    if i == 0 then None
    else
      var r := FirstFiring(cells, anchor, i - 1);
      if r.Some? then r
      else if Fires(cells, anchor, AutocompleteTypes[i - 1]) then Some(AutocompleteTypes[i - 1])
      else None
  }

  /** Since at most one kind fires, the detector's search moves past a kind
      that does not fire, and a kind that fires is the first to do so. */
  lemma FirstFiringStep(cells: seq<Cell>, anchor: nat, i: nat)
    requires i < |AutocompleteTypes|
    ensures Fires(cells, anchor, AutocompleteTypes[i]) ==>
      FirstFiring(cells, anchor, i).None? && FirstFiring(cells, anchor, i + 1) == Some(AutocompleteTypes[i])
    ensures !Fires(cells, anchor, AutocompleteTypes[i]) ==>
      FirstFiring(cells, anchor, i + 1) == FirstFiring(cells, anchor, i)
  {
    var r := FirstFiring(cells, anchor, i);
    if Fires(cells, anchor, AutocompleteTypes[i]) && r.Some? {
      AtMostOneFires(cells, anchor, r.value, AutocompleteTypes[i]);
      assert false;
    }
  }

  /** Once a kind has fired, the detector's answer is settled. */
  lemma FirstFiringSettles(cells: seq<Cell>, anchor: nat, i: nat)
    requires i <= |AutocompleteTypes|
    ensures FirstFiring(cells, anchor, i).Some? ==> FirstFiring(cells, anchor, |AutocompleteTypes|) == FirstFiring(cells, anchor, i)
    decreases |AutocompleteTypes| - i
  {
    if i < |AutocompleteTypes| {
      FirstFiringSettles(cells, anchor, i + 1);
    }
  }

  /** The content after the prefix of `fired`, if any, typed before
      `anchor`, became a provisional entity. */
  function Created(c: Content, anchor: nat, fired: Option<TriggerType>): (r: Content)
    requires WellFormed(c) && (fired.Some? ==> Fires(c.cells, anchor, fired.value))
    ensures WellFormed(r) && (fired.None? ==> r == c)
    ensures fired.Some? ==> r.nextKey == c.nextKey + 1 && |r.cells| == |c.cells| + 1
  {
    match fired
    case None => c
    case Some(t) => AfterCreate(c, t, anchor - |Prefix(t)|, anchor)
  }

  /** The kind whose prefix was just typed, if any. */
  function Triggered(cells: seq<Cell>, anchor: nat): (r: Option<TriggerType>)
    ensures r.Some? <==> Fires(cells, anchor, HASH) || Fires(cells, anchor, PERSON) || Fires(cells, anchor, REF)
    ensures r.Some? ==> Fires(cells, anchor, r.value)
  {
    var r := FirstFiring(cells, anchor, |AutocompleteTypes|);
    assert AutocompleteTypes[0] == HASH && AutocompleteTypes[1] == PERSON && AutocompleteTypes[2] == REF;
    r
  }

  // ----------------------------------------------------------------------
  // The composing span

  /** `[start, end)` is a maximal run of characters carrying entity `k`:
      what the decorator hands to the entity's component. */
  predicate IsEntityRun(cells: seq<Cell>, start: nat, end: nat, k: EntityKey) {
    start < end <= |cells| &&
    (forall i :: start <= i < end ==> cells[i].entity == Some(k)) &&
    (start == 0 || cells[start - 1].entity != Some(k)) &&
    (end == |cells| || cells[end].entity != Some(k))
  }

  /** The entity being composed, with the run that holds the cursor. */
  datatype ComposingSpan = ComposingSpan(key: EntityKey, kind: TriggerType, start: nat, end: nat, text: string,
                                         data: Option<SuggestionResult>)

  /** The composing span at the cursor, if an entity is active: the maximal
      run of that entity around the cursor, its kind and its text. */
  function Composing(c: Content, anchor: nat): (r: Option<ComposingSpan>)
    requires WellFormed(c)
    ensures r.Some? <==> ActiveEntity(c.cells, anchor).Some?
    ensures r.Some? ==> (ActiveEntity(c.cells, anchor) == Some(r.value.key) &&
                         IsEntityRun(c.cells, r.value.start, r.value.end, r.value.key) &&
                         r.value.start <= anchor < r.value.end &&
                         r.value.text == Text(c.cells)[r.value.start..r.value.end] &&
                         r.value.key in c.entities && r.value.kind == c.entities[r.value.key].kind &&
                         r.value.data == c.entities[r.value.key].data)
  {
    match ActiveEntity(c.cells, anchor)
    case None => None
    case Some(k) =>
      var start := RunStart(c.cells, k, anchor);
      var end := RunEnd(c.cells, k, anchor);
      var e := c.entities[k];
      Some(ComposingSpan(k, e.kind, start, end, Text(c.cells[start..end]), e.data))
  }

  // ----------------------------------------------------------------------
  // The rewrites, as functions of the content

  /** A provisional entity of kind `t` over `[start, end)`: a new MUTABLE
      entity, and the range replaced by the prefix and a thin space tagged
      with it. */
  function AfterCreate(c: Content, t: TriggerType, start: nat, end: nat): (r: Content)
    requires WellFormed(c) && start <= end <= |c.cells|
    ensures WellFormed(r) && c.nextKey !in c.entities && r.nextKey == c.nextKey + 1
    ensures r.entities == c.entities[c.nextKey := Entity(t, MUTABLE, None)]
    ensures |r.cells| == |c.cells| - (end - start) + |Prefix(t)| + 1
    ensures r.selectionAfter == start + |Prefix(t)| + 1
  {
    var c1 := CreateEntity(c, t, MUTABLE, None);
    ReplaceTextWellFormed(c1, start, end, Prefix(t) + [ThinSpace], Some(LastCreatedEntityKey(c1)));
    ReplaceText(c1, start, end, Prefix(t) + [ThinSpace], Some(LastCreatedEntityKey(c1)))
  }

  /** The commit of `result` over `[start, end)`: a new IMMUTABLE entity
      holding the result, the range replaced by the result's text tagged with
      it, then an untagged space inserted after that text. */
  function AfterFinalize(c: Content, start: nat, end: nat, t: TriggerType, result: SuggestionResult): (r: Content)
    requires WellFormed(c) && start <= end <= |c.cells|
    ensures WellFormed(r) && c.nextKey !in c.entities && r.nextKey == c.nextKey + 1
    ensures r.entities == c.entities[c.nextKey := Entity(t, IMMUTABLE, Some(result))]
    ensures |r.cells| == |c.cells| - (end - start) + |result.text| + 1
    ensures r.selectionAfter == start + |result.text| + 1
  {
    var c1 := CreateEntity(c, t, IMMUTABLE, Some(result));
    ReplaceTextWellFormed(c1, start, end, result.text, Some(LastCreatedEntityKey(c1)));
    var c2 := ReplaceText(c1, start, end, result.text, Some(LastCreatedEntityKey(c1)));
    InsertTextWellFormed(c2, c2.selectionAfter, " ");
    InsertText(c2, c2.selectionAfter, " ")
  }

  /** The removal of `[start, end)` and the insertion of `text`, untagged,
      at `start`. */
  function AfterRemove(c: Content, start: nat, end: nat, text: string): (r: Content)
    requires WellFormed(c) && start <= end && start <= |c.cells|
    ensures WellFormed(r) && r.entities == c.entities && r.nextKey == c.nextKey
    ensures r.selectionAfter == start + |text|
  {
    RemoveRangeWellFormed(c, start, end);
    InsertTextWellFormed(RemoveRange(c, start, end), start, text);
    InsertText(RemoveRange(c, start, end), start, text)
  }

  /** A new entity's key is on no character, so the same entities straddle
      every offset. */
  lemma CreateEntityKeepsEdges(c: Content, t: TriggerType, mutability: Mutability, data: Option<SuggestionResult>)
    requires WellFormed(c)
    ensures forall o: nat :: StraddlingEntity(CreateEntity(c, t, mutability, data), o) == StraddlingEntity(c, o)
  {
    var c1 := CreateEntity(c, t, mutability, data);
    forall o: nat ensures StraddlingEntity(c1, o) == StraddlingEntity(c, o) {
      if 0 < o < |c.cells| && c.cells[o].entity.Some? {
        assert c.cells[o].entity.value != c.nextKey;
      }
    }
  }

  /** A stripped copy of some of the content's characters carries no entity
      the table does not hold yet, in particular not the next key. */
  lemma StrippedNotFresh(c: Content, entities: map<EntityKey, Entity>, a: nat, b: nat, ys: seq<Cell>)
    requires WellFormed(c) && a <= b <= |c.cells| && StrippedCopy(entities, c.cells[a..b], ys)
    ensures forall i :: 0 <= i < |ys| ==> ys[i].entity.None? || ys[i].entity.value < c.nextKey
  {
    forall i | 0 <= i < |ys|
      ensures ys[i].entity.None? || ys[i].entity.value < c.nextKey
    {
      assert c.cells[a..b][i] == c.cells[a + i];
    }
  }

  /** A splice over `[start, end)` of well-formed content whose first `m`
      new characters carry the next key and whose others do not: exactly
      those `m` characters carry it. */
  lemma OnlyNewTagged(c: Content, r: seq<Cell>, entities: map<EntityKey, Entity>, start: nat, end: nat,
                      ins: seq<Cell>, m: nat, exact: bool)
    requires WellFormed(c) && Spliced(entities, c.cells, r, start, end, ins, exact) && m <= |ins|
    requires forall i :: 0 <= i < |ins| ==> (ins[i].entity == Some(c.nextKey) <==> i < m)
    ensures forall i :: 0 <= i < |r| ==> (r[i].entity == Some(c.nextKey) <==> start <= i < start + m)
  {
    var n := |ins|;
    assert c.cells[..start] == c.cells[0..start];
    assert c.cells[end..] == c.cells[end..|c.cells|];
    StrippedNotFresh(c, entities, 0, start, r[..start]);
    StrippedNotFresh(c, entities, end, |c.cells|, r[start + n..]);
    forall i | 0 <= i < |r|
      ensures r[i].entity == Some(c.nextKey) <==> start <= i < start + m
    {
      if i < start {
        assert r[i] == r[..start][i];
      } else if i < start + n {
        assert r[i] == r[start..start + n][i - start] == ins[i - start];
      } else {
        assert r[i] == r[start + n..][i - start - n];
      }
    }
  }

  /** Creating a provisional entity splices the prefix and a thin space,
      tagged with the new entity, over the range: the text reads so, exactly
      those characters carry the new entity, and the characters around the
      range lose at most a non-MUTABLE entity straddling an edge of the
      range, none when nothing straddles. */
  lemma CreateLayout(c: Content, t: TriggerType, start: nat, end: nat)
    requires WellFormed(c) && start <= end <= |c.cells|
    ensures var r := AfterCreate(c, t, start, end);
      Text(r.cells) == Text(c.cells)[..start] + (Prefix(t) + [ThinSpace]) + Text(c.cells)[end..] &&
      Spliced(r.entities, c.cells, r.cells, start, end, Tagged(Prefix(t) + [ThinSpace], Some(c.nextKey)),
              StraddlingEntity(c, start).None? && StraddlingEntity(c, end).None?) &&
      (forall i :: 0 <= i < |r.cells| ==> (r.cells[i].entity == Some(c.nextKey) <==> start <= i < start + |Prefix(t)| + 1))
  {
    var p := Prefix(t) + [ThinSpace];
    var ins := Tagged(p, Some(c.nextKey));
    var c1 := CreateEntity(c, t, MUTABLE, None);
    assert c1.cells == c.cells && LastCreatedEntityKey(c1) == c.nextKey;
    CreateEntityKeepsEdges(c, t, MUTABLE, None);
    CreatedCells(c, c1, AfterCreate(c, t, start, end), start, end, p);
  }

  /** `CreateLayout` over the content `c1` that holds the new entity. */
  lemma CreatedCells(c: Content, c1: Content, r: Content, start: nat, end: nat, p: string)
    requires WellFormed(c) && start <= end <= |c.cells| && c1.cells == c.cells
    requires StraddlingEntity(c1, start) == StraddlingEntity(c, start) && StraddlingEntity(c1, end) == StraddlingEntity(c, end)
    requires r == ReplaceText(c1, start, end, p, Some(c.nextKey))
    ensures Text(r.cells) == Text(c.cells)[..start] + p + Text(c.cells)[end..] &&
      Spliced(r.entities, c.cells, r.cells, start, end, Tagged(p, Some(c.nextKey)),
              StraddlingEntity(c, start).None? && StraddlingEntity(c, end).None?) &&
      (forall i :: 0 <= i < |r.cells| ==> (r.cells[i].entity == Some(c.nextKey) <==> start <= i < start + |p|))
  {
    var ins := Tagged(p, Some(c.nextKey));
    assert forall i :: 0 <= i < |ins| ==> (ins[i].entity == Some(c.nextKey) <==> i < |p|);
    ReplaceTextLayout(c1, start, end, p, Some(c.nextKey));
    OnlyNewTagged(c, r.cells, r.entities, start, end, ins, |p|,
                  StraddlingEntity(c, start).None? && StraddlingEntity(c, end).None?);
  }

  /** Committing splices the result's text, tagged with the new entity, and
      one untagged space over the range: the text reads so, exactly the
      result's characters carry the new entity, and the characters around
      the range lose at most a non-MUTABLE entity straddling an edge; with
      nothing straddling and a non-empty result, none. */
  lemma FinalizeLayout(c: Content, start: nat, end: nat, t: TriggerType, result: SuggestionResult)
    requires WellFormed(c) && start <= end <= |c.cells|
    ensures var r := AfterFinalize(c, start, end, t, result);
      Text(r.cells) == Text(c.cells)[..start] + result.text + " " + Text(c.cells)[end..] &&
      Spliced(r.entities, c.cells, r.cells, start, end, Tagged(result.text, Some(c.nextKey)) + [Cell(' ', None)],
              0 < |result.text| && StraddlingEntity(c, start).None? && StraddlingEntity(c, end).None?) &&
      (forall i :: 0 <= i < |r.cells| ==> (r.cells[i].entity == Some(c.nextKey) <==> start <= i < start + |result.text|))
  {
    var c1 := CreateEntity(c, t, IMMUTABLE, Some(result));
    assert c1.cells == c.cells && LastCreatedEntityKey(c1) == c.nextKey;
    CreateEntityKeepsEdges(c, t, IMMUTABLE, Some(result));
    FinalizedCells(c, c1, AfterFinalize(c, start, end, t, result), start, end, result.text);
  }

  /** `FinalizeLayout` over the content `c1` that holds the new entity. */
  lemma FinalizedCells(c: Content, c1: Content, r: Content, start: nat, end: nat, text: string)
    requires WellFormed(c) && start <= end <= |c.cells| && c1.cells == c.cells
    requires StraddlingEntity(c1, start) == StraddlingEntity(c, start) && StraddlingEntity(c1, end) == StraddlingEntity(c, end)
    requires r == InsertText(ReplaceText(c1, start, end, text, Some(c.nextKey)),
                             ReplaceText(c1, start, end, text, Some(c.nextKey)).selectionAfter, " ")
    ensures Text(r.cells) == Text(c.cells)[..start] + text + " " + Text(c.cells)[end..] &&
      Spliced(r.entities, c.cells, r.cells, start, end, Tagged(text, Some(c.nextKey)) + [Cell(' ', None)],
              0 < |text| && StraddlingEntity(c, start).None? && StraddlingEntity(c, end).None?) &&
      (forall i :: 0 <= i < |r.cells| ==> (r.cells[i].entity == Some(c.nextKey) <==> start <= i < start + |text|))
  {
    var c2 := ReplaceText(c1, start, end, text, Some(c.nextKey));
    FinalizedText(c, c1, c2, start, end, text);
    FinalizedSpliced(c, c1, c2, start, end, text);
  }

  /** The text part of `FinalizedCells`. */
  lemma FinalizedText(c: Content, c1: Content, c2: Content, start: nat, end: nat, text: string)
    requires start <= end <= |c.cells| && c1.cells == c.cells
    requires c2 == ReplaceText(c1, start, end, text, Some(c.nextKey))
    ensures Text(InsertText(c2, c2.selectionAfter, " ").cells) == Text(c.cells)[..start] + text + " " + Text(c.cells)[end..]
  {
    ReplaceTextLayout(c1, start, end, text, Some(c.nextKey));
    InsertTextText(c2, c2.selectionAfter, " ");
    InsertAfter(Text(c.cells)[..start], text, Text(c.cells)[end..], Text(c2.cells),
                Text(InsertText(c2, c2.selectionAfter, " ").cells), " ");
  }

  /** The entity part of `FinalizedCells`. */
  lemma FinalizedSpliced(c: Content, c1: Content, c2: Content, start: nat, end: nat, text: string)
    requires WellFormed(c) && start <= end <= |c.cells| && c1.cells == c.cells
    requires StraddlingEntity(c1, start) == StraddlingEntity(c, start) && StraddlingEntity(c1, end) == StraddlingEntity(c, end)
    requires c2 == ReplaceText(c1, start, end, text, Some(c.nextKey))
    ensures var r := InsertText(c2, c2.selectionAfter, " ");
      Spliced(r.entities, c.cells, r.cells, start, end, Tagged(text, Some(c.nextKey)) + [Cell(' ', None)],
              0 < |text| && StraddlingEntity(c, start).None? && StraddlingEntity(c, end).None?) &&
      (forall i :: 0 <= i < |r.cells| ==> (r.cells[i].entity == Some(c.nextKey) <==> start <= i < start + |text|))
  {
    ReplaceTextLayout(c1, start, end, text, Some(c.nextKey));
    assert Tagged(" ", None) == [Cell(' ', None)];
    InsertTextSpliced(c2, c2.selectionAfter, " ");
    CommitSpliced(c, c2, InsertText(c2, c2.selectionAfter, " ").cells, start, end, text,
                  StraddlingEntity(c1, start).None? && StraddlingEntity(c1, end).None?);
  }

  /** The cells of a commit: the result's text tagged with the next key
      spliced over `[start, end)`, then an untagged space inserted after
      it, is one splice of both, in which exactly the text carries the key. */
  lemma CommitSpliced(c: Content, c2: Content, rs: seq<Cell>, start: nat, end: nat, text: string, ex1: bool)
    requires WellFormed(c)
    requires Spliced(c2.entities, c.cells, c2.cells, start, end, Tagged(text, Some(c.nextKey)), ex1)
    requires c2.selectionAfter == start + |text|
    requires Spliced(c2.entities, c2.cells, rs, Cap(c2.selectionAfter, |c2.cells|), Cap(c2.selectionAfter, |c2.cells|),
                     [Cell(' ', None)], StraddlingEntity(c2, c2.selectionAfter).None?)
    ensures Spliced(c2.entities, c.cells, rs, start, end, Tagged(text, Some(c.nextKey)) + [Cell(' ', None)], 0 < |text| && ex1)
    ensures forall i :: 0 <= i < |rs| ==> (rs[i].entity == Some(c.nextKey) <==> start <= i < start + |text|)
  {
    var ins := Tagged(text, Some(c.nextKey));
    var ex2 := StraddlingEntity(c2, c2.selectionAfter).None?;
    assert Cap(c2.selectionAfter, |c2.cells|) == start + |ins|;
    FinalizeNoStraddle(c, c2, c2.entities, start, end, text, ex1);
    SplicedInsert(c2.entities, c.cells, c2.cells, rs, start, end, ins, [Cell(' ', None)], ex1, ex2);
    SplicedWeaken(c2.entities, c.cells, rs, start, end, ins + [Cell(' ', None)], ex1 && ex2, 0 < |text| && ex1);
    TaggedThenUntagged(text, c.nextKey, [Cell(' ', None)]);
    OnlyNewTagged(c, rs, c2.entities, start, end, ins + [Cell(' ', None)], |text|, ex1 && ex2);
  }

  /** Text tagged with `k` followed by cells without `k`: exactly the
      text's cells carry `k`. */
  lemma TaggedThenUntagged(text: string, k: EntityKey, tail: seq<Cell>)
    requires forall i :: 0 <= i < |tail| ==> tail[i].entity != Some(k)
    ensures var cs := Tagged(text, Some(k)) + tail;
      forall i :: 0 <= i < |cs| ==> (cs[i].entity == Some(k) <==> i < |text|)
  {
    var cs := Tagged(text, Some(k)) + tail;
    forall i | 0 <= i < |cs|
      ensures cs[i].entity == Some(k) <==> i < |text|
    {
      if i >= |text| {
        assert cs[i] == tail[i - |text|];
      }
    }
  }

  /** After the replacement, nothing straddles the end of a non-empty
      result: the character before it carries the new key, no old one does. */
  lemma FinalizeNoStraddle(c: Content, c2: Content, entities: map<EntityKey, Entity>, start: nat, end: nat,
                           text: string, exact: bool)
    requires WellFormed(c) && Spliced(entities, c.cells, c2.cells, start, end, Tagged(text, Some(c.nextKey)), exact)
    ensures text == "" || StraddlingEntity(c2, start + |text|).None?
  {
    var p := start + |text|;
    if 0 < |text| && p < |c2.cells| {
      assert c2.cells[p - 1] == c2.cells[start..p][|text| - 1];
      assert c.cells[end..] == c.cells[end..|c.cells|];
      StrippedNotFresh(c, entities, end, |c.cells|, c2.cells[p..]);
      assert c2.cells[p] == c2.cells[p..][0];
    }
  }

  /** A decorated run is removed together with the character after it by
      stripping and cutting: its first and last characters do not share an
      entity with the character after it, and nothing straddles its start. */
  lemma RemoveAcross(c: Content, k: EntityKey, start: nat, end: nat)
    requires IsEntityRun(c.cells, start, end, k)
    ensures !(EntityAt(c.cells, start).Some? && EntityAt(c.cells, start) == EntityAt(c.cells, end))
    ensures StraddlingEntity(c, start).None?
  {
    assert EntityAt(c.cells, start) == Some(k);
  }

  /** Putting `s[i..j]` back between the head and the tail left after
      cutting `s[i..k]`. */
  lemma PutBack<T>(s: seq<T>, x: seq<T>, r: seq<T>, i: nat, j: nat, k: nat)
    requires i <= j <= k <= |s| && x == s[..i] + s[k..] && r == x[..i] + s[i..j] + x[i..]
    ensures r == s[..j] + s[k..]
  {
    assert x[..i] == s[..i] && x[i..] == s[k..];
    assert s[..j] == s[..i] + s[i..j];
  }

  /** After the exact cut of `[start, stop)`, the characters that meet at
      `start` are those at `start - 1` and at `stop`. */
  lemma RejoinedEdge(c: Content, x: Content, start: nat, stop: nat)
    requires Spliced(c.entities, c.cells, x.cells, start, stop, [], true) && x.entities == c.entities
    ensures StraddlingEntity(x, start).Some? ==> SharedFixed(c, start - 1, stop)
  {
    if StraddlingEntity(x, start).Some? {
      assert x.cells[start - 1] == c.cells[start - 1];
      assert x.cells[start] == c.cells[stop];
    }
  }

  /** The remove check's rewrite of a decorated run `[start, end)` of
      entity `k`: `[start, end + 1)` is removed and the run's text
      reinserted untagged at `start`. The text loses the character after the
      run, and the characters are those of the content with `[start, end +
      1)` replaced by the run's characters without entity; the characters
      around it lose at most a non-MUTABLE entity, and none unless such an
      entity straddles `end + 1`, or carries both the character before the
      run and the one after the removed character. */
  lemma RemoveLayout(c: Content, k: EntityKey, start: nat, end: nat)
    requires WellFormed(c) && IsEntityRun(c.cells, start, end, k)
    ensures var text := Text(c.cells[start..end]);
      var r := AfterRemove(c, start, end + 1, text);
      var stop := Cap(end + 1, |c.cells|);
      Text(r.cells) == Text(c.cells)[..end] + Text(c.cells)[stop..] &&
      Spliced(c.entities, c.cells, r.cells, start, stop, Tagged(text, None),
              StraddlingEntity(c, end + 1).None? && !SharedFixed(c, start - 1, end + 1))
  {
    RemoveText(c, k, start, end);
    RemoveSpliced(c, k, start, end);
  }

  /** The text part of `RemoveLayout`. */
  lemma RemoveText(c: Content, k: EntityKey, start: nat, end: nat)
    requires WellFormed(c) && IsEntityRun(c.cells, start, end, k)
    ensures var text := Text(c.cells[start..end]);
      Text(AfterRemove(c, start, end + 1, text).cells) == Text(c.cells)[..end] + Text(c.cells)[Cap(end + 1, |c.cells|)..]
  {
    RemoveAcross(c, k, start, end);
    RemoveRangeAcrossText(c, start, end + 1);
    ReinsertText(c, RemoveRange(c, start, end + 1), start, end, Text(c.cells[start..end]));
  }

  /** Cutting `[start, end + 1)` into `x` and then inserting the text of
      `[start, end)` at `start` leaves the text without the character at
      `end`. */
  lemma ReinsertText(c: Content, x: Content, start: nat, end: nat, text: string)
    requires start <= end <= |c.cells| && text == Text(c.cells[start..end])
    requires Text(x.cells) == Text(c.cells)[..start] + Text(c.cells)[Cap(end + 1, |c.cells|)..]
    ensures Text(InsertText(x, start, text).cells) == Text(c.cells)[..end] + Text(c.cells)[Cap(end + 1, |c.cells|)..]
  {
    InsertTextText(x, start, text);
    assert Cap(start, |x.cells|) == start;
    TextSlice(c.cells, start, end);
    PutBack(Text(c.cells), Text(x.cells), Text(InsertText(x, start, text).cells), start, end, Cap(end + 1, |c.cells|));
  }

  /** The splice part of `RemoveLayout`. */
  lemma RemoveSpliced(c: Content, k: EntityKey, start: nat, end: nat)
    requires WellFormed(c) && IsEntityRun(c.cells, start, end, k)
    ensures var text := Text(c.cells[start..end]);
      Spliced(c.entities, c.cells, AfterRemove(c, start, end + 1, text).cells, start, Cap(end + 1, |c.cells|), Tagged(text, None),
              StraddlingEntity(c, end + 1).None? && !SharedFixed(c, start - 1, end + 1))
  {
    var x := RemoveRange(c, start, end + 1);
    assert StraddlingEntity(c, start).None? &&
      Spliced(c.entities, c.cells, x.cells, start, Cap(end + 1, |c.cells|), [],
              StraddlingEntity(c, start).None? && StraddlingEntity(c, end + 1).None?) by {
      RemoveAcross(c, k, start, end);
      assert end + 1 - 1 == end;
      RemoveRangeAcrossSpliced(c, start, end + 1);
    }
    ReinsertSpliced(c, x, start, end, Text(c.cells[start..end]));
  }

  /** Cutting `[start, end + 1)` into `x` and then inserting `text`
      untagged at `start` is one splice of that text over the cut range. */
  lemma ReinsertSpliced(c: Content, x: Content, start: nat, end: nat, text: string)
    requires x.entities == c.entities && start <= end <= |c.cells|
    requires StraddlingEntity(c, start).None?
    requires Spliced(c.entities, c.cells, x.cells, start, Cap(end + 1, |c.cells|), [],
                     StraddlingEntity(c, start).None? && StraddlingEntity(c, end + 1).None?)
    ensures Spliced(c.entities, c.cells, InsertText(x, start, text).cells, start, Cap(end + 1, |c.cells|), Tagged(text, None),
                    StraddlingEntity(c, end + 1).None? && !SharedFixed(c, start - 1, end + 1))
  {
    var stop := Cap(end + 1, |c.cells|);
    var rs := InsertText(x, start, text).cells;
    InsertTextSpliced(x, start, text);
    assert Cap(start, |x.cells|) == start;
    var ex1 := StraddlingEntity(c, start).None? && StraddlingEntity(c, end + 1).None?;
    var ex2 := StraddlingEntity(x, start).None?;
    SplicedInsert(c.entities, c.cells, x.cells, rs, start, stop, [], Tagged(text, None), ex1, ex2);
    assert [] + Tagged(text, None) == Tagged(text, None);
    if ex1 {
      RejoinedEdge(c, x, start, stop);
    }
    SplicedWeaken(c.entities, c.cells, rs, start, stop, Tagged(text, None), ex1 && ex2,
                  StraddlingEntity(c, end + 1).None? && !SharedFixed(c, start - 1, end + 1));
  }

  /** A non-MUTABLE entity that carries both the character after the
      decorated run and the next one loses its entity on the rest of its
      run, which the removal moves one place back. */
  lemma RemoveStripsFollowing(c: Content, k: EntityKey, start: nat, end: nat)
    requires WellFormed(c) && IsEntityRun(c.cells, start, end, k)
    requires StraddlingEntity(c, end + 1).Some?
    ensures var r := AfterRemove(c, start, end + 1, Text(c.cells[start..end]));
      var j := StraddlingEntity(c, end + 1).value;
      forall i :: end + 1 <= i < RunEnd(c.cells, j, end + 1) ==>
        c.cells[i].entity == Some(j) && r.cells[i - 1] == Cell(c.cells[i].ch, None)
  {
    RemoveCutsStripped(c, k, start, end);
    ReinsertShifted(c, RemoveRange(c, start, end + 1), start, end + 1, Text(c.cells[start..end]));
  }

  /** Cutting `[start, stop)` out of `c` stripped at `stop` into `x` and
      then inserting `stop - 1 - start` characters at `start` moves the rest
      of the run that straddles `stop`, stripped, one place back. */
  lemma ReinsertShifted(c: Content, x: Content, start: nat, stop: nat, text: string)
    requires start < stop && StraddlingEntity(c, stop).Some? && |text| == stop - 1 - start
    requires x.cells == StripAtEdge(c, stop).cells[..start] + StripAtEdge(c, stop).cells[Cap(stop, |c.cells|)..]
    ensures var j := StraddlingEntity(c, stop).value;
      forall i :: stop <= i < RunEnd(c.cells, j, stop) ==> InsertText(x, start, text).cells[i - 1] == Cell(c.cells[i].ch, None)
  {
    StripAtEdgeRun(c, stop);
    var j := StraddlingEntity(c, stop).value;
    InsertTextSpliced(x, start, text);
    assert Cap(start, |x.cells|) == start && Cap(stop, |c.cells|) == stop;
    FollowingShifted(x.entities, c.cells, StripAtEdge(c, stop).cells, x.cells, InsertText(x, start, text).cells,
                     start, stop, RunEnd(c.cells, j, stop), Tagged(text, None), StraddlingEntity(x, start).None?);
  }

  /** Removing `[start, end + 1)` after a decorated run strips the entity
      that straddles `end + 1` and cuts the range. */
  lemma RemoveCutsStripped(c: Content, k: EntityKey, start: nat, end: nat)
    requires WellFormed(c) && IsEntityRun(c.cells, start, end, k)
    ensures RemoveRange(c, start, end + 1).cells ==
      StripAtEdge(c, end + 1).cells[..start] + StripAtEdge(c, end + 1).cells[Cap(end + 1, |c.cells|)..]
  {
    RemoveAcross(c, k, start, end);
    RemoveRangeCutsStripped(c, start, end + 1);
    assert StripAtEdges(c, start, end + 1) == StripAtEdge(c, end + 1);
  }

  /** The untagged characters of a run after the cut `[start, stop)` move
      back by the length of the cut less that of the text reinserted. */
  lemma FollowingShifted(entities: map<EntityKey, Entity>, cs: seq<Cell>, stripped: seq<Cell>, xs: seq<Cell>,
                         rs: seq<Cell>, start: nat, stop: nat, e: nat, ins: seq<Cell>, exact: bool)
    requires start < stop <= e <= |stripped| && e <= |cs| && xs == stripped[..start] + stripped[stop..]
    requires forall i :: stop <= i < e ==> stripped[i] == Cell(cs[i].ch, None)
    requires Spliced(entities, xs, rs, start, start, ins, exact) && |ins| == stop - 1 - start
    ensures forall i :: stop <= i < e ==> rs[i - 1] == Cell(cs[i].ch, None)
  {
    forall i | stop <= i < e
      ensures rs[i - 1] == Cell(cs[i].ch, None)
    {
      assert xs[start + (i - stop)] == stripped[i];
      SplicedSuffix(entities, xs, rs, start, start, ins, exact, i - stop);
    }
  }


  /** After a provisional entity is created at the cursor, the entity is
      active at the cursor and no further trigger fires there. */
  lemma CreateThenDerive(c: Content, t: TriggerType, anchor: nat)
    requires WellFormed(c) && anchor <= |c.cells| && Fires(c.cells, anchor, t)
    ensures var r := AfterCreate(c, t, anchor - |Prefix(t)|, anchor);
      ActiveEntity(r.cells, anchor) == Some(c.nextKey) && Triggered(r.cells, anchor).None?
  {
    var start := anchor - |Prefix(t)|;
    CreateLayout(c, t, start, anchor);
    InsideRun(AfterCreate(c, t, start, anchor).cells, anchor, c.nextKey, start, |Prefix(t)| + 1);
  }

  /** Strictly inside the run of the only characters that carry `k`, `k`
      is active and no trigger fires. */
  lemma InsideRun(cells: seq<Cell>, anchor: nat, k: EntityKey, start: nat, n: nat)
    requires start < anchor < start + n && anchor < |cells|
    requires forall i :: 0 <= i < |cells| ==> (cells[i].entity == Some(k) <==> start <= i < start + n)
    ensures ActiveEntity(cells, anchor) == Some(k) && Triggered(cells, anchor).None?
  {
    assert cells[anchor - 1].entity == Some(k);
    assert cells[anchor].entity == Some(k);
    ActiveEntityInside(cells, anchor, k);
    assert !TriggerGuard(cells, anchor);
  }

  /** After a commit, no entity is active at the new cursor (it follows the
      untagged space) and no trigger fires there. */
  lemma FinalizeThenDerive(c: Content, start: nat, end: nat, t: TriggerType, result: SuggestionResult)
    requires WellFormed(c) && start <= end <= |c.cells|
    ensures var r := AfterFinalize(c, start, end, t, result);
      var cursor := start + |result.text| + 1;
      ActiveEntity(r.cells, cursor).None? && Triggered(r.cells, cursor).None?
  {
    var r := AfterFinalize(c, start, end, t, result);
    var ins := Tagged(result.text, Some(c.nextKey)) + [Cell(' ', None)];
    FinalizeLayout(c, start, end, t, result);
    SplicedInserted(r.entities, c.cells, r.cells, start, end, ins,
                    0 < |result.text| && StraddlingEntity(c, start).None? && StraddlingEntity(c, end).None?, |result.text|);
    assert ins[|result.text|] == Cell(' ', None);
    AfterSpace(r.cells, start + |result.text| + 1);
  }

  /** Right after an untagged space, no entity is active and no trigger
      fires. */
  lemma AfterSpace(cells: seq<Cell>, cursor: nat)
    requires 0 < cursor <= |cells| && cells[cursor - 1] == Cell(' ', None)
    ensures ActiveEntity(cells, cursor).None? && Triggered(cells, cursor).None?
  {
    assert Text(cells)[cursor - 1] == ' ';
    forall u: TriggerType ensures !Fires(cells, cursor, u) {
      PrefixEndsBeforeCursor(Text(cells), cursor, Prefix(u));
    }
  }

  // ----------------------------------------------------------------------
  // Remove check and cancel result, as the entity's component computes them

  /** The component removes the entity when its decorated text lacks the
      kind's prefix, or lacks the thin space while the entity has no
      committed text. */
  predicate ShouldRemove(t: TriggerType, decorated: string, data: Option<SuggestionResult>) {
    IndexOf(decorated, Prefix(t)) == -1 || (IndexOf(decorated, [ThinSpace]) == -1 && !HasText(data))
  }

  lemma ShouldRemoveIff(t: TriggerType, decorated: string, data: Option<SuggestionResult>)
    ensures ShouldRemove(t, decorated, data) <==>
      (forall j :: !OccursAt(decorated, Prefix(t), j)) || (ThinSpace !in decorated && !HasText(data))
  {
    IndexOfSpec(decorated, Prefix(t));
    IndexOfSpec(decorated, [ThinSpace]);
    if ThinSpace in decorated {
      var j :| 0 <= j < |decorated| && decorated[j] == ThinSpace;
      assert decorated[j + 0] == [ThinSpace][0];
      assert OccursAt(decorated, [ThinSpace], j);
    }
    if IndexOf(decorated, [ThinSpace]) != -1 {
      var j := IndexOf(decorated, [ThinSpace]);
      assert decorated[j + 0] == [ThinSpace][0] == ThinSpace;
    }
  }

  /** A freshly created provisional entity is not removed. */
  lemma FreshEntityKept(t: TriggerType)
    ensures !ShouldRemove(t, Prefix(t) + [ThinSpace], None)
  {
    var s := Prefix(t) + [ThinSpace];
    assert OccursAt(s, Prefix(t), 0);
    assert OccursAt(s, [ThinSpace], |Prefix(t)|);
    IndexOfSpec(s, Prefix(t));
    IndexOfSpec(s, [ThinSpace]);
  }

  /** The result a commit writes: the chosen suggestion, or, when there is
      none (cancel, or confirm on an empty list), the decorated text trimmed. */
  function CommitResult(choice: Option<SuggestionResult>, decorated: string): (r: SuggestionResult)
    ensures choice.Some? ==> r == choice.value
    ensures choice.None? ==> r == SuggestionResult(Trim(decorated), None)
    ensures choice.None? ==> exists a, b :: 0 <= a <= b <= |decorated| && r.text == decorated[a..b]
  {
    match choice
    case Some(result) => result
    case None => SuggestionResult(Trim(decorated), None)
  }

  /** A committed entity whose text holds its prefix is never removed; a
      cancelled entity keeps the prefix its decorated text held. */
  lemma CommittedEntityKept(t: TriggerType, choice: Option<SuggestionResult>, decorated: string)
    requires choice.Some? ==> IndexOf(choice.value.text, Prefix(t)) != -1
    requires choice.None? ==> IndexOf(decorated, Prefix(t)) != -1
    ensures var r := CommitResult(choice, decorated); !ShouldRemove(t, r.text, Some(r))
  {
    var r := CommitResult(choice, decorated);
    if choice.None? {
      TrimKeepsOccurrence(decorated, Prefix(t));
    }
    assert r.text != "";
  }

  // ----------------------------------------------------------------------
  // The editor

  /** The editor's state: the content of the block and the selection. */
  class MyEditor {
    var content: Content
    var selection: Selection

    /** The content is well formed. The selection is not bounded by the
      block: a remove that cuts a whole IMMUTABLE run can leave it past the
      block's end. */
    ghost predicate Valid()
      reads this
    {
      WellFormed(content)
    }

    /** An editor over plain `text`, the cursor at its start. */
    constructor (text: string)
      ensures Valid()
      ensures content == Content(Tagged(text, None), map[], 1, 0) && selection == Collapsed(0)
    {
      content := Content(Tagged(text, None), map[], 1, 0);
      selection := Collapsed(0);
    }

    /** The binding of a key given the entity active at the cursor. */
    function KeyCommand(keyCode: int): (c: Command)
      requires Valid()
      reads this
      ensures ActiveEntity(content.cells, selection.anchor).None? ==> c == DefaultBinding(keyCode)
      ensures ActiveEntity(content.cells, selection.anchor).Some? ==>
        c == KeyBinding(true, content.entities[ActiveEntity(content.cells, selection.anchor).value].kind == HASH, keyCode)
    {
      var active := ActiveEntity(content.cells, selection.anchor);
      var isHashtag := active.Some? && content.entities[active.value].kind == HASH;
      KeyBinding(active.Some?, isHashtag, keyCode)
    }

    /** Replaces `[start, end)` by the prefix of `t` and a thin space, tagged
      with a new MUTABLE entity, and puts the cursor after the prefix. */
    method CreateAutocompleteEntity(t: TriggerType, start: nat, end: nat)
      requires Valid() && start <= end <= |content.cells|
      modifies this
      ensures Valid()
      ensures content == AfterCreate(old(content), t, start, end)
      ensures selection == Collapsed(start + |Prefix(t)|)
    {
      var contentState := content;
      contentState := CreateEntity(contentState, t, MUTABLE, None);
      ReplaceTextWellFormed(contentState, start, end, Prefix(t) + [ThinSpace], Some(LastCreatedEntityKey(contentState)));
      contentState := ReplaceText(contentState, start, end, Prefix(t) + [ThinSpace],
                                  Some(LastCreatedEntityKey(contentState)));
      content := contentState;
      selection := Collapsed(start + |Prefix(t)|);
    }

    /** Derives the entity active at the cursor and, when the character
      before the cursor is untagged and a prefix was just typed, turns that
      prefix into a provisional entity. The returned key is the one active in
      the state before any creation. */
    method AutocompleteEntityKey() returns (key: Option<EntityKey>)
      requires Valid()
      modifies this
      ensures Valid()
      ensures key == ActiveEntity(old(content).cells, old(selection).anchor)
      ensures content == Created(old(content), old(selection).anchor, Triggered(old(content).cells, old(selection).anchor))
      ensures selection == if Triggered(old(content).cells, old(selection).anchor).None? then old(selection)
                           else Collapsed(old(selection).anchor)
    {
      var anchorOffset := selection.anchor;
      var block := content.cells;
      var meta := CharAt(block, anchorOffset);
      var prevMeta := CharAt(block, anchorOffset as int - 1);
      var isWithinEntity := meta.Some? && prevMeta.Some? && meta.value.entity == prevMeta.value.entity;

      if prevMeta.None? || prevMeta.value.entity.None? {
        CreateTriggeredEntity();
      } else {
        assert !TriggerGuard(block, anchorOffset);
        assert Triggered(block, anchorOffset).None?;
      }
      key := if isWithinEntity then meta.value.entity else None;
    }

    /** The trigger loop of `AutocompleteEntityKey`, run when the character
      before the cursor is untagged: the kinds are tried in order and the
      first whose prefix was just typed becomes a provisional entity. */
    method CreateTriggeredEntity()
      requires Valid() && TriggerGuard(content.cells, selection.anchor)
      modifies this
      ensures Valid()
      ensures content == Created(old(content), old(selection).anchor, Triggered(old(content).cells, old(selection).anchor))
      ensures selection == if Triggered(old(content).cells, old(selection).anchor).None? then old(selection)
                           else Collapsed(old(selection).anchor)
    {
      var anchorOffset := selection.anchor;
      var block := content.cells;
      var blockText := Text(block);
      ghost var c0, s0 := content, selection;
      ghost var fired: Option<TriggerType> := None;
      var i := 0;
      while i < |AutocompleteTypes|
        invariant 0 <= i <= |AutocompleteTypes| && fired == FirstFiring(block, anchorOffset, i)
        invariant content == Created(c0, anchorOffset, fired)
        invariant selection == if fired.None? then s0 else Collapsed(anchorOffset)
      {
        var t := AutocompleteTypes[i];
        var start := anchorOffset - |Prefix(t)|;
        // A slice running past the block's end is shorter than the prefix.
        var typed := start >= 0 && anchorOffset <= |blockText| && blockText[start..anchorOffset] == Prefix(t);
        assert typed == Fires(block, anchorOffset, t);
        assert (typed ==> fired.None?) &&
          FirstFiring(block, anchorOffset, i + 1) == if typed then Some(t) else fired by {
          FirstFiringStep(block, anchorOffset, i);
        }
        if typed {
          assert content == c0;
          CreateAutocompleteEntity(t, start, anchorOffset);
          assert content == Created(c0, anchorOffset, Some(t));
          fired := Some(t);
        }
        i := i + 1;
      }
    }

    /** Commits `result` over `[start, end)`: its text under a new IMMUTABLE
      entity holding the result, one untagged space, the cursor after it. */
    method OnAutocompleteFinalize(start: nat, end: nat, t: TriggerType, result: SuggestionResult)
      requires Valid() && start <= end <= |content.cells|
      modifies this
      ensures Valid()
      ensures content == AfterFinalize(old(content), start, end, t, result)
      ensures selection == Collapsed(start + |result.text| + 1)
    {
      var contentState := content;
      contentState := CreateEntity(contentState, t, IMMUTABLE, Some(result));
      ReplaceTextWellFormed(contentState, start, end, result.text, Some(LastCreatedEntityKey(contentState)));
      contentState := ReplaceText(contentState, start, end, result.text, Some(LastCreatedEntityKey(contentState)));
      InsertTextWellFormed(contentState, contentState.selectionAfter, " ");
      contentState := InsertText(contentState, contentState.selectionAfter, " ");
      content := contentState;
      selection := Collapsed(contentState.selectionAfter);
    }

    /** Removes `[start, end)` and reinserts `text` untagged at `start`,
      leaving the cursor at `start`. */
    method OnAutocompleteRemove(start: nat, end: nat, text: string)
      requires Valid() && start <= end && start <= |content.cells|
      modifies this
      ensures Valid()
      ensures content == AfterRemove(old(content), start, end, text)
      ensures selection == Collapsed(start)
    {
      var contentState := content;
      RemoveRangeWellFormed(contentState, start, end);
      contentState := RemoveRange(contentState, start, end);
      InsertTextWellFormed(contentState, start, text);
      contentState := InsertText(contentState, start, text);
      content := contentState;
      selection := Collapsed(start);
    }

    /** The check the component of a decorated range `[start, end)` of
      entity `k` runs: when the entity is invalid, remove it, passing the
      range's end plus one. Returns the decorated text, the end passed to
      the removal (`end + 1`) and whether the range was removed. */
    method CheckDecoratedRange(k: EntityKey, start: nat, end: nat) returns (decorated: string, stop: nat, removed: bool)
      requires Valid() && IsEntityRun(content.cells, start, end, k)
      modifies this
      ensures Valid()
      ensures old(content).cells[start].entity == Some(k) && k in old(content).entities
      ensures decorated == Text(old(content).cells[start..end]) && stop == end + 1
      ensures removed == ShouldRemove(old(content).entities[k].kind, decorated, old(content).entities[k].data)
      ensures removed ==> content == AfterRemove(old(content), start, stop, decorated) && selection == Collapsed(start)
      ensures !removed ==> content == old(content) && selection == old(selection)
    {
      assert content.cells[start].entity == Some(k);
      var e := content.entities[k];
      decorated := Text(content.cells[start..end]);
      stop := end + 1;
      removed := ShouldRemove(e.kind, decorated, e.data);
      if removed {
        OnAutocompleteRemove(start, stop, decorated);
      }
    }
  }
}
