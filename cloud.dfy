/** The word cloud: the tag data handed to the cloud renderer, the hue each
    tag is drawn in, and the click that votes for a tag's name. */
module Cloud {
  import opened BotNames
  import Registry

  /** One tag of the cloud: its text, its weight and its key. */
  datatype Tag = Tag(value: string, count: nat, key: string)

  /** The tag data: one tag per name, in list order. */
  function Tags(names: seq<Name>): (tags: seq<Tag>)
    ensures |tags| == |names|
    ensures forall i :: 0 <= i < |names| ==>
      tags[i].value == names[i].text && tags[i].count == names[i].votes && tags[i].key == names[i].id
  {
    seq(|names|, i requires 0 <= i < |names| => Tag(names[i].text, names[i].votes, names[i].id))
  }

  /** The hue (in degrees) of a tag with `count` votes: `(count * 60) % 360`. */
  function Hue(count: nat): (h: nat)
    ensures h < 360 && h % 60 == 0
  {
    SixtiethsOfTurn(count / 6, count % 6);
    (count * 60) % 360
  }

  /** `q` whole turns plus `r` sixths of a turn, in degrees, reduce to `r`
      sixths. */
  lemma SixtiethsOfTurn(q: nat, r: nat)
    requires r < 6
    ensures (360 * q + 60 * r) % 360 == 60 * r && (60 * r) % 60 == 0
  {
  }

  /** The hue is one of the six multiples of 60 below 360, fixed by the
      tally modulo 6. */
  lemma HueRange(count: nat)
    ensures Hue(count) < 360 && Hue(count) % 60 == 0
    ensures Hue(count) == 60 * (count % 6)
  {
    var q := count / 6;
    var r := count % 6;
    assert count * 60 == 360 * q + 60 * r;
  }

  /** Six more votes bring a tag back to the same hue. */
  lemma HuePeriodic(count: nat)
    ensures Hue(count + 6) == Hue(count)
  {
    HueRange(count);
    HueRange(count + 6);
  }

  /** `names.find(n => n.text === value)`, as an index: the first name whose
      text equals `value` exactly, or none. */
  function FirstWithText(names: seq<Name>, value: string): (r: Option<nat>)
    ensures r.Some? ==>
      r.value < |names| && names[r.value].text == value &&
      (forall j :: 0 <= j < r.value ==> names[j].text != value)
    ensures r.None? ==> forall j :: 0 <= j < |names| ==> names[j].text != value
  {
    if names == [] then None
    else if names[0].text == value then Some(0)
    else match FirstWithText(names[1..], value)
      case None => None
      case Some(i) => Some(i + 1)
  }

  /** The id the click handler passes to the vote handler, if any. */
  function ClickedId(names: seq<Name>, value: string): (r: Option<string>)
    ensures r.Some? <==> exists j :: 0 <= j < |names| && names[j].text == value
    ensures r.Some? ==> exists j :: 0 <= j < |names| && names[j].text == value && names[j].id == r.value
  {
    match FirstWithText(names, value)
    case None => None
    case Some(i) => Some(names[i].id)
  }

  /** Under the case-insensitive uniqueness of the registry, at most one name
      carries a given text exactly. */
  lemma AtMostOneMatch(names: seq<Name>, value: string, i: nat, j: nat)
    requires Registry.CaseDistinct(names)
    requires i < |names| && j < |names|
    requires names[i].text == value && names[j].text == value
    ensures i == j
  {
  }

  /** Clicking the tag drawn for name `i` finds name `i`. */
  lemma ClickFindsTaggedName(names: seq<Name>, i: nat)
    requires Registry.CaseDistinct(names) && i < |names|
    ensures FirstWithText(names, Tags(names)[i].value) == Some(i)
    ensures ClickedId(names, Tags(names)[i].value) == Some(names[i].id)
  {
    var value := Tags(names)[i].value;
    var r := FirstWithText(names, value);
    assert r.Some?;
    AtMostOneMatch(names, value, r.value, i);
  }

  /** With both registry invariants, clicking the tag of name `i` gives that
      name one more vote and leaves every other name as it was. */
  lemma ClickVotesTaggedName(names: seq<Name>, i: nat)
    requires Registry.CaseDistinct(names) && IdsDistinct(names) && i < |names|
    ensures ClickedId(names, Tags(names)[i].value).Some?
    ensures var after := Registry.VoteFor(names, ClickedId(names, Tags(names)[i].value).value);
      |after| == |names| && after[i] == names[i].(votes := names[i].votes + 1) &&
      forall j :: 0 <= j < |names| && j != i ==> after[j] == names[j]
  {
    ClickFindsTaggedName(names, i);
  }

  /** The cloud's click handler: vote for the first name whose text is the
      clicked tag's value; with no such name nothing happens, and the error
      banner is left as it was. */
  method OnTagClick(app: Registry.App, value: string)
    requires app.Valid()
    modifies app
    ensures app.Valid()
    ensures match ClickedId(old(app.names), value)
      case Some(id) => app.names == Registry.VoteFor(old(app.names), id) && app.error == ""
      case None => app.names == old(app.names) && app.error == old(app.error)
  {
    var found := ClickedId(app.names, value);
    if found.Some? {
      app.HandleVote(found.value);
    }
  }
}
