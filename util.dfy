/** The pure helpers of lib/util.py that the level and the sequencer depend on:
    orientation cycling, the on/off codec of the configuration file, the
    direction names, direction vectors, the edges of a box, the all-collided
    test and the typewriter phase of dialogue text. */
module Util {
  import opened Wrappers
  import opened Text
  import opened Geometry
  import opened Locals

  // ---------------------------------------------------------------- orientation

  /** cycle_clockwise: one quarter turn forward; past 3 it wraps to 0. */
  function CycleClockwise(o: int): (r: int)
    ensures 0 <= o <= 3 ==> r == (o + 1) % 4
    ensures o > 2 ==> r == 0
  {
    var n := o + 1;
    if n > 3 then 0 else n
  }

  /** cycle_counter_clockwise: one quarter turn back; below 0 it wraps to 3. */
  function CycleCounterClockwise(o: int): (r: int)
    ensures 0 <= o <= 3 ==> r == (o + 3) % 4
    ensures o < 1 ==> r == 3
  {
    var n := o - 1;
    if n < 0 then 3 else n
  }

  /** On the four orientations the two cycles undo each other. */
  lemma CyclesAreInverse(o: int)
    requires 0 <= o <= 3
    ensures CycleCounterClockwise(CycleClockwise(o)) == o
    ensures CycleClockwise(CycleCounterClockwise(o)) == o
  {
  }

  /** `n` clockwise quarter turns. */
  function TurnClockwise(o: int, n: nat): int {
    if n == 0 then o else CycleClockwise(TurnClockwise(o, n - 1))
  }

  /** `n` clockwise quarter turns from an orientation land on (o + n) mod 4;
      in particular four turns give back the orientation. */
  lemma {:induction false} TurnClockwiseIsModular(o: int, n: nat)
    requires 0 <= o <= 3
    ensures TurnClockwise(o, n) == (o + n) % 4
    ensures n == 4 ==> TurnClockwise(o, n) == o
  {
    if n > 0 {
      TurnClockwiseIsModular(o, n - 1);
    }
  }

  // ---------------------------------------------------------------- on/off codec

  /** str_to_bool: surrounding whitespace and case are ignored; "true", "1" and "on" mean true. */
  function StrToBool(s: string): bool {
    var t := Lower(Strip(Unicode, s));
    t == "true" || t == "1" || t == "on"
  }

  /** bool_to_str. */
  function BoolToStr(b: bool): (r: string)
    ensures r == "on" || r == "off"
  {
    if b then "on" else "off"
  }

  /** What bool_to_str writes, str_to_bool reads back. */
  lemma BoolCodecRoundTrip(b: bool)
    ensures StrToBool(BoolToStr(b)) == b
  {
    var t := BoolToStr(b);
    StripKeepsTrimmed(t);
    assert Lower(t) == t by {
      assert forall i :: 0 <= i < |t| ==> LowerChar(t[i]) == t[i];
    }
  }

  /** A text that starts and ends with a non-whitespace character is its own strip. */
  lemma StripKeepsTrimmed(s: string)
    requires s != [] && !IsSpace(Unicode, s[0]) && !IsSpace(Unicode, s[|s| - 1])
    ensures Strip(Unicode, s) == s
  {
    assert LStrip(Unicode, s) == s;
  }

  lemma {:induction false} LStripIdempotent(s: string)
    ensures LStrip(Unicode, LStrip(Unicode, s)) == LStrip(Unicode, s)
  {
  }

  lemma {:induction false} StripIdempotent(s: string)
    ensures Strip(Unicode, Strip(Unicode, s)) == Strip(Unicode, s)
  {
    var t := Strip(Unicode, s);
    var u := LStrip(Unicode, s);
    assert t == RStrip(Unicode, u);
    RStripIsPrefix(Unicode, u);
    if t != [] {
      assert t[0] == u[0];
      assert LStrip(Unicode, t) == t;
    } else {
      assert LStrip(Unicode, t) == t;
    }
    assert RStrip(Unicode, t) == t;
  }

  /** Lowering and stripping commute, because lowering never turns a character
      into whitespace or whitespace into something else. */
  lemma {:induction false} LowerStripCommute(s: string)
    ensures Lower(Strip(Unicode, s)) == Strip(Unicode, Lower(s))
    decreases |s|
  {
    LowerLStrip(s);
    LowerRStrip(LStrip(Unicode, s));
  }

  /** Lowering a character neither makes nor unmakes whitespace. */
  lemma LowerCharSpace(c: char)
    ensures IsSpace(Unicode, LowerChar(c)) == IsSpace(Unicode, c)
  {
  }

  lemma {:induction false} LowerLStrip(s: string)
    ensures Lower(LStrip(Unicode, s)) == LStrip(Unicode, Lower(s))
    decreases |s|
  {
    if s != [] {
      assert Lower(s)[1..] == Lower(s[1..]);
      LowerCharSpace(s[0]);
      if IsSpace(Unicode, s[0]) {
        LowerLStrip(s[1..]);
      }
    }
  }

  lemma {:induction false} LowerRStrip(s: string)
    ensures Lower(RStrip(Unicode, s)) == RStrip(Unicode, Lower(s))
    decreases |s|
  {
    if s != [] {
      LowerPrefix(s, |s| - 1);
      LowerCharSpace(s[|s| - 1]);
      if IsSpace(Unicode, s[|s| - 1]) {
        LowerRStrip(s[..|s| - 1]);
      }
    }
  }

  lemma LowerPrefix(s: string, n: nat)
    requires n <= |s|
    ensures Lower(s)[..n] == Lower(s[..n])
  {
  }

  /** str_to_bool gives the same answer for a value that has already been
      stripped or lowered: it depends only on the stripped, lowered text. */
  lemma StrToBoolNormalised(s: string)
    ensures StrToBool(Strip(Unicode, s)) == StrToBool(s)
    ensures StrToBool(Lower(s)) == StrToBool(s)
  {
    StripIdempotent(s);
    LowerStripCommute(s);
    LowerStripCommute(Lower(s));
    LowerIdempotent(s);
  }

  /** A config value read as unicode loses a trailing no-break space to
      strip(), so "true" followed by U+00A0 reads as true. */
  lemma NoBreakSpaceIsStripped()
    ensures StrToBool("true" + ['\U{a0}'])
    ensures StrToBool(['\U{2003}'] + "On")
  {
    var t := "true" + ['\U{a0}'];
    assert LStrip(Unicode, t) == t;
    assert t[..4] == "true";
    assert RStrip(Unicode, t) == RStrip(Unicode, "true");
    assert Strip(Unicode, t) == "true";
    var u := ['\U{2003}'] + "On";
    assert u[1..] == "On";
    assert LStrip(Unicode, u) == LStrip(Unicode, "On") == "On";
    assert RStrip(Unicode, "On") == "On";
    assert Strip(Unicode, u) == "On";
    assert Lower("On") == "on";
  }

  lemma {:induction false} LowerIdempotent(s: string)
    ensures Lower(Lower(s)) == Lower(s)
  {
    var l := Lower(s);
    assert forall i :: 0 <= i < |s| ==> LowerChar(l[i]) == l[i];
  }

  // ---------------------------------------------------------------- direction names

  /** dir_from_str: the names LEFT, RIGHT, UP and DOWN; any other key raises KeyError. */
  function DirFromStr(s: string): (r: Option<int>)
    ensures r.Some? <==> s in {"LEFT", "RIGHT", "UP", "DOWN"}
  {
    if s == "LEFT" then Some(LEFT)
    else if s == "RIGHT" then Some(RIGHT)
    else if s == "UP" then Some(UP)
    else if s == "DOWN" then Some(DOWN)
    else None
  }

  /** str_from_dir: the inverse table; any other code raises KeyError. */
  function StrFromDir(d: int): (r: Option<string>)
    ensures r.Some? <==> d in {LEFT, RIGHT, UP, DOWN}
  {
    if d == LEFT then Some("LEFT")
    else if d == RIGHT then Some("RIGHT")
    else if d == UP then Some("UP")
    else if d == DOWN then Some("DOWN")
    else None
  }

  /** The two tables are inverse to each other on their whole domains. */
  lemma DirNamesRoundTrip(s: string, d: int)
    ensures DirFromStr(s).Some? ==> StrFromDir(DirFromStr(s).value) == Some(s)
    ensures StrFromDir(d).Some? ==> DirFromStr(StrFromDir(d).value) == Some(d)
  {
  }

  // ---------------------------------------------------------------- direction vectors

  /** get_direction: the unit step of a direction in screen coordinates (y grows
      downwards), and (0, 0) for any other value. */
  function GetDirection(o: int): (v: (int, int))
    ensures o in {RIGHT, LEFT, UP, DOWN} <==> v != (0, 0)
    ensures v != (0, 0) ==> (if v.0 < 0 then -v.0 else v.0) + (if v.1 < 0 then -v.1 else v.1) == 1
  {
    if o == RIGHT then (1, 0)
    else if o == LEFT then (-1, 0)
    else if o == UP then (0, -1)
    else if o == DOWN then (0, 1)
    else (0, 0)
  }

  /** With the clockwise numbering of the directions, one clockwise cycle turns
      the step vector by a quarter turn, (x, y) to (-y, x) on screen, and two
      make it point the opposite way. */
  lemma {:induction false} CycleTurnsDirection(o: int)
    requires 0 <= o <= 3
    ensures var v := GetDirection(o); GetDirection(CycleClockwise(o)) == (-v.1, v.0)
    ensures var v := GetDirection(o); GetDirection(CycleClockwise(CycleClockwise(o))) == (-v.0, -v.1)
  {
  }

  // ---------------------------------------------------------------- edges

  /** The four sides of a box, as get_edges returns them under the keys LEFT, RIGHT, UP and DOWN. */
  datatype Edges = Edges(left: Rect, right: Rect, up: Rect, down: Rect)

  /** get_edges: four boxes of thickness 0 on the left, right, top and bottom
      sides of `r`, the vertical ones as tall as `r`, the horizontal ones as wide. */
  function GetEdges(r: Rect): (e: Edges)
    ensures e.left.width == 0 && e.right.width == 0 && e.up.height == 0 && e.down.height == 0
    ensures e.left.left == r.left && e.right.left == r.Right()
    ensures e.up.top == r.top && e.down.top == r.Bottom()
    ensures e.left.top == e.right.top == r.top && e.left.Bottom() == e.right.Bottom() == r.Bottom()
    ensures e.up.left == e.down.left == r.left && e.up.Right() == e.down.Right() == r.Right()
  {
    Edges(Rect(r.left, r.top, 0, r.height),
          Rect(r.Right(), r.top, 0, r.height),
          Rect(r.left, r.top, r.width, 0),
          Rect(r.left, r.Bottom(), r.width, 0))
  }

  /** A box `m` touches the left edge of `r` exactly when it straddles the line
      x = r.left strictly and overlaps the span of `r` vertically; the right
      edge likewise at x = r.right, and the top and bottom edges at
      y = r.top and y = r.bottom with a horizontal overlap. */
  lemma EdgeContacts(m: Rect, r: Rect)
    ensures var e := GetEdges(r);
      (m.Collides(e.left) <==> m.left < r.left < m.Right() && m.top < r.Bottom() && r.top < m.Bottom()) &&
      (m.Collides(e.right) <==> m.left < r.Right() < m.Right() && m.top < r.Bottom() && r.top < m.Bottom()) &&
      (m.Collides(e.up) <==> m.top < r.top < m.Bottom() && m.left < r.Right() && r.left < m.Right()) &&
      (m.Collides(e.down) <==> m.top < r.Bottom() < m.Bottom() && m.left < r.Right() && r.left < m.Right())
  {
  }

  // ---------------------------------------------------------------- all_collided

  /** all_collided: whether `r` collides with every box of `others`; true when there are none. */
  method AllCollided(r: Rect, others: seq<Rect>) returns (b: bool)
    ensures b <==> forall i :: 0 <= i < |others| ==> r.Collides(others[i])
  {
    var i := 0;
    while i < |others|
      invariant 0 <= i <= |others|
      invariant forall j :: 0 <= j < i ==> r.Collides(others[j])
    {
      if !r.Collides(others[i]) {
        return false;
      }
      i := i + 1;
    }
    return true;
  }

  // ---------------------------------------------------------------- dialogue phase

  /** The phase step of render_text_dialogue for a text of `length` characters:
      -1 first stands for the whole text; a phase short of the length grows by
      one, any other phase becomes -1 (the text is complete). */
  function NextPhase(length: nat, phase: int): (p: int)
    ensures phase >= -1 ==> p == -1 || 0 < p <= length
  {
    var p := if phase == -1 then length else phase;
    if p < length then p + 1 else -1
  }

  /** The text render_text_dialogue shows for a phase: string[0:phase] with
      Python's slice bounds, after -1 has been replaced by the full length. */
  function ShownText(s: string, phase: int): (r: string)
    ensures r <= s
    ensures phase == -1 ==> r == s
    ensures 0 <= phase <= |s| ==> r == s[..phase]
  {
    var p := if phase == -1 then |s| else phase;
    var end := if p < 0 then (if |s| + p < 0 then 0 else |s| + p) else if p > |s| then |s| else p;
    s[..end]
  }

  /** The phase after `k` steps from 0. */
  function PhaseAfter(length: nat, k: nat): int {
    if k == 0 then 0 else NextPhase(length, PhaseAfter(length, k - 1))
  }

  /** Starting from phase 0, the dialogue reveals one more character on each
      frame: after k frames the first k characters are shown, and from frame
      |s| + 1 on the phase is -1 and the whole text is shown. */
  lemma {:induction false} TypewriterReveal(s: string, k: nat)
    ensures k <= |s| ==> PhaseAfter(|s|, k) == k && ShownText(s, PhaseAfter(|s|, k)) == s[..k]
    ensures k > |s| ==> PhaseAfter(|s|, k) == -1 && ShownText(s, PhaseAfter(|s|, k)) == s
  {
    if k > 0 {
      TypewriterReveal(s, k - 1);
    }
  }
}
