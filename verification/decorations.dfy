/** The present colours and the ornament switch of the `/23` routes: the
    path segment is matched case-insensitively, anything else is answered
    with 418, and each answer links to the next state. */
module Decorations {
  import opened Common

  datatype Color = Red | Blue | Purple

  /** `Display for Color`. */
  function ColorName(c: Color): string
  {
    match c
    case Red => "red"
    case Blue => "blue"
    case Purple => "purple"
  }

  /** `Color::try_from`: the lower-cased input must be one of the three names. */
  function ParseColor(s: string): (r: Option<Color>)
    ensures r.Some? <==> Lower(s) in {"red", "blue", "purple"}
    ensures r.Some? ==> ColorName(r.value) == Lower(s)
  {
    var t := Lower(s);
    if t == "red" then Some(Red)
    else if t == "purple" then Some(Purple)
    else if t == "blue" then Some(Blue)
    else None
  }

  /** `Color::next`. */
  function Next(c: Color): Color
  {
    match c
    case Red => Blue
    case Blue => Purple
    case Purple => Red
  }

  /** The colours form one cycle of length three. */
  lemma NextCycles(c: Color)
    ensures Next(c) != c && Next(Next(c)) != c
    ensures Next(Next(Next(c))) == c
  {
  }

  /** A colour's name parses back to the colour, in any letter case. */
  lemma ColorRoundTrip(c: Color, s: string)
    requires Lower(s) == ColorName(c)
    ensures ParseColor(s) == Some(c)
    ensures ParseColor(ColorName(c)) == Some(c)
  {
    assert Lower(ColorName(c)) == ColorName(c);
  }

  /** What a present response carries: the colour it shows and the colour
      its `hx-get` link asks for. */
  datatype PresentView = PresentView(color: string, nextColor: string)

  /** GET /present/{color}: 418 for an unknown colour, else the present and
      a link to the next colour. */
  function Present(s: string): (r: (nat, Option<PresentView>))
    ensures r.0 == StatusTeapot <==> ParseColor(s).None?
    ensures r.0 == StatusTeapot ==> r.1.None?
    ensures r.0 == StatusOk ==> (r.1.Some? && r.1.value.color == Lower(s)
      && ParseColor(r.1.value.nextColor) == Some(Next(ParseColor(s).value))
      && r.1.value.nextColor == ColorName(Next(ParseColor(s).value))
      && r.1.value.nextColor in {"red", "blue", "purple"})
    ensures r.0 in {StatusOk, StatusTeapot}
  {
    match ParseColor(s)
    case None => (StatusTeapot, None)
    case Some(c) =>
      ColorRoundTrip(Next(c), ColorName(Next(c)));
      (StatusOk, Some(PresentView(ColorName(c), ColorName(Next(c)))))
  }

  /** Following the present's link three times comes back to the start. */
  lemma PresentLinksCycle(s: string)
    requires Present(s).0 == StatusOk
    ensures var v1 := Present(s).1.value;
      var v2 := Present(v1.nextColor).1.value;
      var v3 := Present(v2.nextColor).1.value;
      Present(v3.nextColor).1.value.color == Lower(s)
  {
    var c := ParseColor(s).value;
    NextCycles(c);
  }

  /** What an ornament response carries: its CSS class and the state its
      `hx-get` link switches to. */
  datatype OrnamentView = OrnamentView(cssClass: string, nextState: string)

  /** `ornament`'s state segment: "on" is true, "off" false, in any case. */
  function ParseSwitch(s: string): (r: Option<bool>)
    ensures r == Some(true) <==> Lower(s) == "on"
    ensures r == Some(false) <==> Lower(s) == "off"
  {
    var t := Lower(s);
    if t == "on" then Some(true)
    else if t == "off" then Some(false)
    else None
  }

  /** GET /ornament/{state}/{id}: 418 for a state other than on/off, else the
      ornament (lit when on) linking to the opposite state. */
  function Ornament(state: string): (r: (nat, Option<OrnamentView>))
    ensures r.0 == StatusTeapot <==> ParseSwitch(state).None?
    ensures r.0 == StatusTeapot ==> r.1.None?
    ensures r.0 == StatusOk ==> (r.1.Some?
      && (r.1.value.cssClass == "ornament on" <==> Lower(state) == "on")
      && r.1.value.cssClass == (if Lower(state) == "on" then "ornament on" else "ornament")
      && r.1.value.nextState in {"on", "off"}
      && ParseSwitch(r.1.value.nextState) == Some(!ParseSwitch(state).value))
    ensures r.0 in {StatusOk, StatusTeapot}
  {
    match ParseSwitch(state)
    case None => (StatusTeapot, None)
    case Some(on) =>
      var next := if on then "off" else "on";
      assert Lower(next) == next;
      (StatusOk, Some(OrnamentView(if on then "ornament on" else "ornament", next)))
  }

  /** Following the ornament's link twice comes back to the same state. */
  lemma OrnamentToggles(state: string)
    requires Ornament(state).0 == StatusOk
    ensures var v1 := Ornament(state).1.value;
      var v2 := Ornament(v1.nextState).1.value;
      Ornament(v2.nextState).1.value.cssClass == v1.cssClass
  {
  }
}
