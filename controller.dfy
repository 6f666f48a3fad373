/** The editor's key handling wired by direct calls: the key router picks a
    command from the entity active at the cursor, and the command moves the
    suggestion cursor or commits the composing span. */
module Controller {
  import opened Strings
  import opened Document
  import opened Suggestions
  import opened SuggestionCursor
  import opened KeyRouter
  import opened Editor

  /** The suggestions the component of a composing span shows. */
  function SpanResults(span: ComposingSpan, cands: Candidates): (r: seq<SuggestionResult>)
    ensures r == GenResults(span.kind, cands, Query(span.text))
    ensures |r| <= 4
  {
    GenResults(span.kind, cands, Query(span.text))
  }

  /** The suggestion list is mounted for the active entity only while the
      entity holds no committed text. */
  predicate ListMounted(span: ComposingSpan) {
    !HasText(span.data)
  }

  /** Every suggestion holds the prefix of its kind: names and references
      get it prepended, and a hashtag matches only if it starts with `#`. */
  lemma ResultsCarryPrefix(t: TriggerType, cands: Candidates, query: string, i: nat)
    requires i < |GenResults(t, cands, query)|
    ensures IndexOf(GenResults(t, cands, query)[i].text, Prefix(t)) != -1
  {
    var text := GenResults(t, cands, query)[i].text;
    var x := Matches(t, cands, query)[i];
    if t == HASH {
      HashLeads(text, query);
    } else {
      assert text == Prefix(t) + x;
      LeadingOccurrence(Prefix(t), x);
    }
    IndexOfSpec(text, Prefix(t));
  }

  /** Text whose lower case starts with `#` and more starts with `#`. */
  lemma HashLeads(s: string, query: string)
    requires StartsWith(Lower(s), Lower("#" + query))
    ensures OccursAt(s, "#", 0)
  {
    assert Lower(s)[0] == Lower("#" + query)[0] == '#';
  }

  /** `p` occurs at the start of `p + x`. */
  lemma LeadingOccurrence(p: string, x: string)
    ensures OccursAt(p + x, p, 0)
  {
    assert forall k :: 0 <= k < |p| ==> (p + x)[0 + k] == p[k];
  }

  /** Committing a span that survived the remove check, with the highlighted
      suggestion or by cancelling, yields an entity the remove check keeps. */
  lemma CommitKeepsEntity(span: ComposingSpan, cands: Candidates, selected: Index)
    requires !ShouldRemove(span.kind, span.text, span.data)
    ensures var r := CommitResult(Pick(selected, SpanResults(span, cands)), span.text);
      !ShouldRemove(span.kind, r.text, Some(r))
    ensures var r := CommitResult(None, span.text); !ShouldRemove(span.kind, r.text, Some(r))
  {
    var results := SpanResults(span, cands);
    var choice := Pick(selected, results);
    if choice.Some? {
      ResultsCarryPrefix(span.kind, cands, Query(span.text), selected.i);
    }
    CommittedEntityKept(span.kind, choice, span.text);
    CommittedEntityKept(span.kind, None, span.text);
  }

  /** What a key leaves behind: the document, the selection and the
      highlighted suggestion. */
  datatype KeyState = KeyState(content: Content, selection: Selection, selected: Index)

  /** Commits `choice` (or, for None, the trimmed decorated text) over the
      composing span and puts the cursor after the space that follows it. */
  function Commit(s: KeyState, span: ComposingSpan, choice: Option<SuggestionResult>): (r: KeyState)
    requires WellFormed(s.content) && span.start <= span.end <= |s.content.cells|
    ensures WellFormed(r.content) && r.selected == s.selected
    ensures var result := CommitResult(choice, span.text);
      r.selection.anchor == r.selection.focus == span.start + |result.text| + 1 &&
      |r.content.cells| == |s.content.cells| - (span.end - span.start) + |result.text| + 1
  {
    var result := CommitResult(choice, span.text);
    KeyState(AfterFinalize(s.content, span.start, span.end, span.kind, result),
             Collapsed(span.start + |result.text| + 1), s.selected)
  }

  /** The state the editor's finalize leaves is the commit's. */
  lemma CommitState(s: KeyState, span: ComposingSpan, choice: Option<SuggestionResult>, c: Content, sel: Selection)
    requires WellFormed(s.content) && span.start <= span.end <= |s.content.cells|
    requires c == AfterFinalize(s.content, span.start, span.end, span.kind, CommitResult(choice, span.text))
    requires sel == Collapsed(span.start + |CommitResult(choice, span.text).text| + 1)
    ensures Commit(s, span, choice) == KeyState(c, sel, s.selected)
  {
  }

  /** The effect of command `cmd`: next and prev move the highlighted
      suggestion while the list is shown; confirm commits the highlighted
      suggestion while the list is shown; cancel commits the trimmed text;
      any other command, or no composing span, leaves everything as it was. */
  function KeyEffect(cmd: Command, cands: Candidates, s: KeyState): (r: KeyState)
    requires WellFormed(s.content)
    ensures WellFormed(r.content)
    ensures HandleKeyCommand(cmd) == NotHandled ==> r == s
    ensures cmd == AutocompleteNext || cmd == AutocompletePrev ==> r.content == s.content && r.selection == s.selection
    ensures cmd == AutocompleteConfirm || cmd == AutocompleteCancel ==> r.selected == s.selected
    ensures Composing(s.content, s.selection.anchor).None? ==> r == s
    ensures var span := Composing(s.content, s.selection.anchor);
      cmd == AutocompleteCancel && span.Some? ==> r == Commit(s, span.value, None)
    ensures var span := Composing(s.content, s.selection.anchor);
      cmd == AutocompleteConfirm && span.Some? && ListMounted(span.value) ==>
        r == Commit(s, span.value, Pick(s.selected, SpanResults(span.value, cands)))
  {
    var span := Composing(s.content, s.selection.anchor);
    if cmd.DefaultBinding? || span.None? then s
    else
      var results := SpanResults(span.value, cands);
      match cmd
      case AutocompleteNext =>
        if ListMounted(span.value) then s.(selected := NextIndex(s.selected, |results|)) else s
      case AutocompletePrev =>
        if ListMounted(span.value) then s.(selected := PrevIndex(s.selected, |results|)) else s
      case AutocompleteConfirm =>
        if ListMounted(span.value) then Commit(s, span.value, Pick(s.selected, results)) else s
      case AutocompleteCancel =>
        Commit(s, span.value, None)
  }

  /** Inside an entity that holds committed text the suggestion list is not
      mounted: next, prev and confirm are still claimed by the key handler,
      but nothing listens for them, so they change nothing. */
  lemma CommittedSpanIgnoresList(cmd: Command, cands: Candidates, s: KeyState)
    requires WellFormed(s.content)
    requires cmd == AutocompleteNext || cmd == AutocompletePrev || cmd == AutocompleteConfirm
    requires var span := Composing(s.content, s.selection.anchor); span.Some? && HasText(span.value.data)
    ensures HandleKeyCommand(cmd) == Handled && KeyEffect(cmd, cands, s) == s
    ensures var span := Composing(s.content, s.selection.anchor); !ListMounted(span.value)
  {
  }

  /** Handles one key: the key router's command and, for the autocomplete
      commands, its effect on the suggestion cursor or the document. */
  method HandleKey(editor: MyEditor, list: SuggestionList, cands: Candidates, keyCode: int) returns (r: CommandResult)
    requires editor.Valid()
    modifies editor, list
    ensures editor.Valid() && list.count == old(list.count)
    ensures r == HandleKeyCommand(old(editor.KeyCommand(keyCode)))
    ensures r == Handled ==> old(Composing(editor.content, editor.selection.anchor)).Some?
    ensures KeyState(editor.content, editor.selection, list.selected) ==
      KeyEffect(old(editor.KeyCommand(keyCode)), cands, old(KeyState(editor.content, editor.selection, list.selected)))
  {
    var cmd := editor.KeyCommand(keyCode);
    r := HandleKeyCommand(cmd);
    ghost var s0 := KeyState(editor.content, editor.selection, list.selected);
    ghost var target := KeyEffect(cmd, cands, s0);
    var span := Composing(editor.content, editor.selection.anchor);
    if cmd.DefaultBinding? {
      return;
    }
    var s := span.value;
    var results := SpanResults(s, cands);
    match cmd {
      case AutocompleteNext =>
        if ListMounted(s) {
          assert target == s0.(selected := NextIndex(s0.selected, |results|));
          list.Next(|results|);
        }
      case AutocompletePrev =>
        if ListMounted(s) {
          assert target == s0.(selected := PrevIndex(s0.selected, |results|));
          list.Prev(|results|);
        }
      case AutocompleteConfirm =>
        if ListMounted(s) {
          var choice := list.Confirm(results);
          assert target == Commit(s0, s, choice);
          editor.OnAutocompleteFinalize(s.start, s.end, s.kind, CommitResult(choice, s.text));
          CommitState(s0, s, choice, editor.content, editor.selection);
        }
      case AutocompleteCancel =>
        assert target == Commit(s0, s, None);
        editor.OnAutocompleteFinalize(s.start, s.end, s.kind, CommitResult(None, s.text));
        CommitState(s0, s, None, editor.content, editor.selection);
    }
  }
}
