/** The suggestion lookup for each autocomplete kind, and the query the
    lookup is given: the decorated text of the entity without its prefix and
    without its thin-space marker. */
module Suggestions {
  import opened Strings
  import opened Document

  /** The static candidate lists (hashtags, people's names, references). */
  datatype Candidates = Candidates(hashtags: seq<string>, names: seq<string>, refs: seq<string>)

  /** The candidates whose lower case starts with `needle`, in list order. */
  function Filter(xs: seq<string>, needle: string): (r: seq<string>)
    ensures |r| <= |xs|
    ensures forall x :: x in r ==> x in xs && StartsWith(Lower(x), needle)
  {
    if xs == [] then []
    else (if StartsWith(Lower(xs[0]), needle) then [xs[0]] else []) + Filter(xs[1..], needle)
  }

  /** Every matching candidate is kept. */
  lemma {:induction false} FilterComplete(xs: seq<string>, needle: string, x: string)
    requires x in xs && StartsWith(Lower(x), needle)
    ensures x in Filter(xs, needle)
  {
    if xs[0] != x {
      FilterComplete(xs[1..], needle, x);
    }
  }

  /** Filtering a concatenation filters each part and keeps their order, so
      the kept candidates appear in the order of the list. */
  lemma {:induction false} FilterAppend(xs: seq<string>, ys: seq<string>, needle: string)
    ensures Filter(xs + ys, needle) == Filter(xs, needle) + Filter(ys, needle)
  {
    if xs == [] {
      assert xs + ys == ys;
    } else {
      assert (xs + ys)[0] == xs[0];
      assert (xs + ys)[1..] == xs[1..] + ys;
      FilterAppend(xs[1..], ys, needle);
    }
  }

  /** `xs.slice(0, 4)` */
  function FirstFour<T>(xs: seq<T>): (r: seq<T>)
    ensures |r| == (if |xs| < 4 then |xs| else 4) && r == xs[..|r|]
  {
    if |xs| < 4 then xs else xs[..4]
  }

  /** Each name written twice, separated by a space. */
  function Doubled(names: seq<string>): (r: seq<string>)
    ensures |r| == |names|
    ensures forall i :: 0 <= i < |r| ==> r[i] == names[i] + " " + names[i]
  {
    seq(|names|, i requires 0 <= i < |names| => names[i] + " " + names[i])
  }

  /** The thumbnail URL of the person suggestion at list position `i`. */
  function KittenUrl(i: nat): (r: string)
    requires i < 10
    ensures |r| == 29 && StartsWith(r, "https://placekitten.com/5")
    ensures r[25] == r[28] == (48 + i) as char && '0' <= r[25] <= '9' && r[26..28] == "/5"
  {
    var d := (48 + i) as char;
    "https://placekitten.com/5" + [d] + "/5" + [d]
  }

  /** The list a kind filters, and the lower-cased string it must start with. */
  function Source(t: TriggerType, cands: Candidates): seq<string> {
    match t
    case HASH => cands.hashtags
    case PERSON => Doubled(cands.names)
    case REF => cands.refs
  }

  function Needle(t: TriggerType, text: string): string {
    match t
    case HASH => "#" + Lower(text)
    case PERSON => Lower(text)
    case REF => Lower(text)
  }

  /** The candidates of kind `t` that match `text`, in list order. */
  function Matches(t: TriggerType, cands: Candidates, text: string): seq<string> {
    Filter(Source(t, cands), Needle(t, text))
  }

  /** The display text of a matching candidate: hashtags carry their `#`
      already, names and references get their prefix added. */
  function Display(t: TriggerType, x: string): string {
    match t
    case HASH => x
    case PERSON => "@" + x
    case REF => "<>" + x
  }

  lemma PrependStartsWith(p: string, s: string, q: string)
    requires StartsWith(s, q)
    ensures StartsWith(p + s, p + q)
  {
    assert (p + s)[..|p + q|] == p + s[..|q|];
  }

  /** A displayed match starts, up to case, with the prefix of its kind
      followed by the query. */
  lemma DisplayStartsWithQuery(t: TriggerType, cands: Candidates, text: string, x: string)
    requires x in Matches(t, cands, text)
    ensures StartsWith(Lower(Display(t, x)), Lower(Prefix(t) + text))
  {
    LowerAppend(Prefix(t), text);
    LowerNoUpper(Prefix(t));
    if t != HASH {
      LowerAppend(Prefix(t), x);
      PrependStartsWith(Prefix(t), Lower(x), Lower(text));
    }
  }

  /** The lookup: at most four results, which are the first four matches in
      list order, each starting with the kind's prefix and the query (up to
      case); people get the thumbnail of their list position. */
  function GenResults(t: TriggerType, cands: Candidates, text: string): (r: seq<SuggestionResult>)
    ensures |r| <= 4
    ensures |r| == |FirstFour(Matches(t, cands, text))|
    ensures forall i :: 0 <= i < |r| ==> r[i].text == Display(t, Matches(t, cands, text)[i])
    ensures forall i :: 0 <= i < |r| ==> StartsWith(Lower(r[i].text), Lower(Prefix(t) + text))
    ensures forall i :: 0 <= i < |r| ==> r[i].img == (if t == PERSON then Some(KittenUrl(i)) else None)
  {
    var hits := FirstFour(Matches(t, cands, text));
    var r := seq(|hits|, i requires 0 <= i < |hits| =>
      SuggestionResult(Display(t, hits[i]), if t == PERSON then Some(KittenUrl(i)) else None));
    forall i | 0 <= i < |r|
      ensures StartsWith(Lower(r[i].text), Lower(Prefix(t) + text))
    {
      DisplayStartsWithQuery(t, cands, text, hits[i]);
    }
    r
  }

  /** `s.replace(/^(#|@|<>)/, '')`: one leading prefix of any kind is dropped. */
  function StripTrigger(s: string): string {
    if |s| >= 1 && s[0] == '#' then s[1..]
    else if |s| >= 1 && s[0] == '@' then s[1..]
    else if |s| >= 2 && s[..2] == "<>" then s[2..]
    else s
  }

  /** The anchored pattern drops a leading `#`, `@` or `<>` when the text
      starts with one, and nothing otherwise; what is left is a suffix. */
  lemma StripTriggerDrops(s: string)
    ensures var r := StripTrigger(s);
      |s| - 2 <= |r| <= |s| && r == s[|s| - |r|..] &&
      (r == s <==> !(StartsWith(s, "#") || StartsWith(s, "@") || StartsWith(s, "<>")))
  {
    if |s| >= 1 && (s[0] == '#' || s[0] == '@') {
      assert s[..1] == [s[0]];
    }
  }

  /** The text the lookup receives for a decorated entity. */
  function Query(decorated: string): (r: string)
    ensures |r| <= |decorated|
    ensures ThinSpace !in decorated ==> r == StripTrigger(decorated)
  {
    RemoveFirst(StripTrigger(decorated), ThinSpace)
  }

  /** A provisional entity that reads prefix, typed text, thin space queries
      exactly the typed text. */
  lemma QueryOfComposingText(t: TriggerType, typed: string)
    requires ThinSpace !in typed
    ensures Query(Prefix(t) + typed + [ThinSpace]) == typed
  {
    var u := typed + [ThinSpace];
    assert Prefix(t) + typed + [ThinSpace] == Prefix(t) + u;
    StripPrefix(t, u);
    RemoveTrailingThinSpace(typed);
  }

  /** The trigger pattern drops exactly the prefix of a kind. */
  lemma StripPrefix(t: TriggerType, u: string)
    ensures StripTrigger(Prefix(t) + u) == u
  {
    var s := Prefix(t) + u;
    if t == REF {
      assert s[0] == '<' && s[..2] == "<>";
    } else {
      assert s[0] == Prefix(t)[0];
    }
    assert s[|Prefix(t)|..] == u;
  }

  /** Removing the first thin space of text that holds none but a final one
      leaves the text before it. */
  lemma RemoveTrailingThinSpace(typed: string)
    requires ThinSpace !in typed
    ensures RemoveFirst(typed + [ThinSpace], ThinSpace) == typed
  {
    var u := typed + [ThinSpace];
    FirstOfChar(u, ThinSpace);
    assert u[|typed|] == ThinSpace;
    assert forall k :: 0 <= k < |typed| ==> u[k] == typed[k];
    var i := IndexOf(u, [ThinSpace]);
    assert u[..i] == typed;
  }
}
