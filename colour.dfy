/**
 * `get_dominant_color_name` (MockupGenerator.py) from the extracted RGB triple on:
 * a decision list whose first matching rule wins.  The float tests are exact
 * here: `(r+g+b)/3 < 50` is `r+g+b < 150`, `r > b*1.2` is `5*r > 6*b`, and
 * `g > b*1.1` is `10*g > 11*b`.
 */
module Colour {
  import opened Base

  type Channel = x: int | 0 <= x < 256

  datatype Rgb = Rgb(r: Channel, g: Channel, b: Channel)

  /** Every name the function can return. */
  const NAMES: set<string> := {
    "reddish", "greenish", "bluish", "yellowish", "purplish", "teal", "dark gray",
    "light gray", "warm", "cool green", "cool blue", "warm neutral", "cool neutral",
    "neutral", "harmonious"
  }

  /** The naming rules applied to an extracted dominant colour, in order. */
  function ColourName(c: Rgb): (name: string)
    ensures name in NAMES && name != "harmonious"
  {
    var r: int, g: int, b: int := c.r, c.g, c.b;
    if r > 200 && g < 100 && b < 100 then "reddish"
    else if g > 200 && r < 100 && b < 100 then "greenish"
    else if b > 200 && r < 100 && g < 100 then "bluish"
    else if r > 150 && g > 150 && b < 100 then "yellowish"
    else if r > 150 && b > 150 && g < 100 then "purplish"
    else if g > 150 && b > 150 && r < 100 then "teal"
    else if r + g + b < 150 then "dark gray"
    else if r + g + b > 600 then "light gray"
    else if r > g && r > b then (if g > 100 then "warm" else "reddish")
    else if g > r && g > b then "cool green"
    else if b > r && b > g then "cool blue"
    else if 5 * r > 6 * b && 10 * g > 11 * b then "warm neutral"
    else if 5 * b > 6 * r && 10 * b > 11 * g then "cool neutral"
    else "neutral"
  }

  /** `get_dominant_color_name`: "harmonious" when extraction failed, else the rules. */
  function DominantColourName(extracted: Option<Rgb>): (name: string)
    ensures name in NAMES
    ensures name == "harmonious" <==> extracted.None?
  {
    match extracted
    case None => "harmonious"
    case Some(c) => ColourName(c)
  }

  /**
   * "cool neutral" is never returned: a triple with `b > 1.2*r` and `b > 1.1*g`
   * already has `b > r` and `b > g`, so the "cool blue" rule took it first.
   */
  lemma CoolNeutralUnreachable(c: Rgb)
    ensures ColourName(c) != "cool neutral"
  {
  }

  /** Every other name is returned for some triple, so none of the other rules is dead. */
  lemma {:induction false} OtherNamesReachable(name: string)
    requires name in NAMES && name != "cool neutral" && name != "harmonious"
    ensures exists c: Rgb :: ColourName(c) == name
  {
    var c: Rgb :=
      if name == "reddish" then Rgb(255, 0, 0)
      else if name == "greenish" then Rgb(0, 255, 0)
      else if name == "bluish" then Rgb(0, 0, 255)
      else if name == "yellowish" then Rgb(255, 255, 0)
      else if name == "purplish" then Rgb(255, 0, 255)
      else if name == "teal" then Rgb(0, 255, 255)
      else if name == "dark gray" then Rgb(10, 10, 10)
      else if name == "light gray" then Rgb(250, 250, 250)
      else if name == "warm" then Rgb(200, 120, 60)
      else if name == "cool green" then Rgb(60, 140, 80)
      else if name == "cool blue" then Rgb(60, 80, 140)
      else if name == "warm neutral" then Rgb(120, 120, 50)
      else Rgb(100, 100, 100);
    assert ColourName(c) == name;
  }
}
