/** The key router: while an autocomplete entity is active, arrow keys,
    Tab, Enter, Escape (and Space for hashtags) become autocomplete commands;
    every other key gets the editor's default binding. */
module KeyRouter {

  /** An editor command. `DefaultBinding(keyCode)` stands for whatever the
      editor's default key binding yields for that key; it is never one of
      the autocomplete commands. */
  datatype Command =
    | AutocompletePrev
    | AutocompleteNext
    | AutocompleteConfirm
    | AutocompleteCancel
    | DefaultBinding(keyCode: int)

  datatype CommandResult = Handled | NotHandled

  const KeyTab := 9
  const KeyEnter := 13
  const KeyEscape := 27
  const KeySpace := 32
  const KeyUp := 38
  const KeyDown := 40

  /** The binding of a key while an entity is `completing` (an entity of kind
      HASH when `isHashtag`). */
  function KeyBinding(completing: bool, isHashtag: bool, keyCode: int): (c: Command)
    ensures !completing ==> c == DefaultBinding(keyCode)
    ensures c.DefaultBinding? ==> c.keyCode == keyCode
    ensures completing && keyCode == KeyEscape ==> c == AutocompleteCancel
  {
    if completing && keyCode == KeyUp then AutocompletePrev
    else if completing && keyCode == KeyDown then AutocompleteNext
    else if completing && (keyCode == KeyTab || keyCode == KeyEnter) then AutocompleteConfirm
    else if completing && (keyCode == KeyEscape || (isHashtag && keyCode == KeySpace)) then AutocompleteCancel
    else DefaultBinding(keyCode)
  }

  /** The keys intercepted while completing, as a table. */
  function InterceptedKeys(isHashtag: bool): map<int, Command> {
    var base := map[KeyUp := AutocompletePrev, KeyDown := AutocompleteNext, KeyTab := AutocompleteConfirm,
                    KeyEnter := AutocompleteConfirm, KeyEscape := AutocompleteCancel];
    if isHashtag then base[KeySpace := AutocompleteCancel] else base
  }

  /** The router agrees with the table: a key is intercepted exactly when an
      entity is completing and the key is in the table of its kind. */
  lemma KeyBindingIsTable(completing: bool, isHashtag: bool, keyCode: int)
    ensures KeyBinding(completing, isHashtag, keyCode) ==
      if completing && keyCode in InterceptedKeys(isHashtag) then InterceptedKeys(isHashtag)[keyCode]
      else DefaultBinding(keyCode)
  {
  }

  /** `handleKeyCommand`: the four autocomplete commands are handled, every
      other command is left to the editor. */
  function HandleKeyCommand(c: Command): (r: CommandResult)
    ensures r == Handled <==> !c.DefaultBinding?
  {
    match c
    case DefaultBinding(_) => NotHandled
    case _ => Handled
  }

  /** A key is handled by the autocomplete exactly when it is intercepted. */
  lemma HandledIffIntercepted(completing: bool, isHashtag: bool, keyCode: int)
    ensures HandleKeyCommand(KeyBinding(completing, isHashtag, keyCode)) == Handled <==>
      completing && keyCode in InterceptedKeys(isHashtag)
  {
    KeyBindingIsTable(completing, isHashtag, keyCode);
  }

  /** Space cancels a hashtag and only a hashtag. */
  lemma SpaceCancelsOnlyHashtags(isHashtag: bool)
    ensures KeyBinding(true, isHashtag, KeySpace) == if isHashtag then AutocompleteCancel else DefaultBinding(KeySpace)
  {
  }
}
