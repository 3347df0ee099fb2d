/** The scripted events of lib/scripted_event.py: a list of elements read from
    the lines of a trigger block, handed out one at a time by a cursor that
    runs over the list, ends each pass with an "end" element, and stops once
    the event has run the number of times it was declared with. */
module ScriptedEvents {
  import opened Wrappers
  import opened Text
  import opened Locals
  import opened Util

  /** Scripted_event_element. Its `finished` flag always starts out false. */
  datatype Element = Element(eventType: string, finished: bool, text: string, orientation: int, animation: string)

  /** An element built with the default text, orientation and animation. */
  function Bare(eventType: string): Element {
    Element(eventType, false, "", RIGHT, "")
  }

  /** The element next_element hands out at the end of a pass and once the event is over. */
  const End: Element := Bare("end")

  // ---------------------------------------------------------------- add_element

  /** What add_element makes of a script line when the last direction set so
      far is `lastDir`: the new element and the last direction afterwards, or
      the exception raised (then nothing changes). The first part is the line
      up to its first space, stripped. "dialogue" keeps the stripped rest as
      its text; "player" reads the tokens of the rest: "orientation D" sets
      the last direction, "animation A" carries it, and any other word leaves
      the element unbound. */
  function ParseElement(line: string, lastDir: int): Result<(Element, int)> {
    var values := SplitOnce(line);
    var etype := Strip(Unicode, values[0]);
    if etype == "dialogue" then
      if |values| < 2 then Err("IndexError")
      else Ok((Element(etype, false, Strip(Unicode, values[1]), RIGHT, ""), lastDir))
    else if etype == "player" then
      if |values| < 2 then Err("IndexError")
      else
        var words := Split(Unicode, values[1]);
        if words == [] then Err("IndexError")
        else if words[0] == "orientation" then
          if |words| < 2 then Err("IndexError")
          else match DirFromStr(words[1])
            case None => Err("KeyError")
            case Some(d) => Ok((Element(etype, false, words[0], d, ""), d))
        else if words[0] == "animation" then
          if |words| < 2 then Err("IndexError")
          else Ok((Element(etype, false, words[0], lastDir, words[1]), lastDir))
        else Err("UnboundLocalError")
    else Ok((Bare(etype), lastDir))
  }

  /** The element carries the line's first part as its type; only a
      dialogue or a player line can raise; only an orientation command
      changes the last direction, and the element of a player command carries
      the last direction; any other type gives a bare element. */
  lemma ParseElementMeaning(line: string, lastDir: int)
    ensures var r := ParseElement(line, lastDir);
      (r.Ok? ==> r.value.0.eventType == Strip(Unicode, SplitOnce(line)[0]) && !r.value.0.finished) &&
      (r.Err? ==> Strip(Unicode, SplitOnce(line)[0]) in {"dialogue", "player"}) &&
      (r.Ok? && r.value.0.eventType != "player" ==> r.value.1 == lastDir) &&
      (r.Ok? && r.value.0.eventType == "player" ==>
        r.value.0.orientation == r.value.1 && r.value.0.text in {"orientation", "animation"}) &&
      (r.Ok? && r.value.1 != lastDir ==> r.value.0.text == "orientation") &&
      (r.Ok? && r.value.0.eventType !in {"dialogue", "player"} ==> r.value.0 == Bare(r.value.0.eventType))
  {
    var values := SplitOnce(line);
    var etype := Strip(Unicode, values[0]);
    if etype == "dialogue" {
      assert ParseElement(line, lastDir).Ok? ==> ParseElement(line, lastDir).value.1 == lastDir;
    } else if etype == "player" {
      if |values| >= 2 {
        var words := Split(Unicode, values[1]);
        if words != [] && |words| >= 2 && words[0] == "orientation" && DirFromStr(words[1]).Some? {
          var d := DirFromStr(words[1]).value;
          assert ParseElement(line, lastDir) == Ok((Element(etype, false, words[0], d, ""), d));
        }
      }
    } else {
      assert ParseElement(line, lastDir) == Ok((Bare(etype), lastDir));
    }
  }

  lemma WordsAreTrimmed(w: string)
    requires IsWord(Unicode, w)
    ensures Strip(Unicode, w) == w
  {
    StripKeepsTrimmed(w);
  }

  lemma NoSpaceInWord(w: string)
    requires IsWord(Unicode, w)
    ensures ' ' !in w
  {
    assert forall i :: 0 <= i < |w| ==> w[i] != ' ';
  }

  /** A line "KEYWORD REST" is cut at the space after the keyword. */
  lemma CutAfterKeyword(key: string, rest: string)
    requires IsWord(Unicode, key)
    ensures SplitOnce(key + " " + rest) == [key, rest]
    ensures Strip(Unicode, SplitOnce(key + " " + rest)[0]) == key
  {
    NoSpaceInWord(key);
    SplitOnceAt(key, rest);
    WordsAreTrimmed(key);
  }

  lemma KeywordsAreWords()
    ensures IsWord(Unicode, "dialogue") && IsWord(Unicode, "player") && IsWord(Unicode, "orientation") && IsWord(Unicode, "animation")
  {
  }

  /** A dialogue line gives a dialogue element whose text is the rest of the
      line, stripped, and leaves the last direction alone. */
  lemma ParseDialogue(rest: string, lastDir: int)
    ensures ParseElement("dialogue" + " " + rest, lastDir) ==
      Ok((Element("dialogue", false, Strip(Unicode, rest), RIGHT, ""), lastDir))
  {
    KeywordsAreWords();
    CutAfterKeyword("dialogue", rest);
  }

  /** The player command of a line "player WORD ARG": the element it gives,
      depending only on the two tokens after "player". */
  lemma ParsePlayerTokens(line: string, rest: string, word: string, arg: string, lastDir: int)
    requires SplitOnce(line) == ["player", rest] && Split(Unicode, rest) == [word, arg]
    ensures word == "orientation" && DirFromStr(arg).Some? ==>
      ParseElement(line, lastDir) ==
        Ok((Element("player", false, "orientation", DirFromStr(arg).value, ""), DirFromStr(arg).value))
    ensures word == "orientation" && DirFromStr(arg).None? ==> ParseElement(line, lastDir) == Err("KeyError")
    ensures word == "animation" ==>
      ParseElement(line, lastDir) == Ok((Element("player", false, "animation", lastDir, arg), lastDir))
    ensures word != "orientation" && word != "animation" ==> ParseElement(line, lastDir) == Err("UnboundLocalError")
  {
    KeywordsAreWords();
    WordsAreTrimmed("player");
  }

  /** "player orientation D": D names a direction, which becomes the last
      direction and is carried by the element; any other name raises KeyError. */
  lemma ParsePlayerOrientation(name: string, lastDir: int)
    requires IsWord(Unicode, name)
    ensures var line := "player" + " " + ("orientation" + " " + name + "\n");
      match DirFromStr(name)
      case Some(d) => ParseElement(line, lastDir) == Ok((Element("player", false, "orientation", d, ""), d))
      case None => ParseElement(line, lastDir) == Err("KeyError")
  {
    var rest := "orientation" + " " + name + "\n";
    KeywordsAreWords();
    CutAfterKeyword("player", rest);
    SplitTwoWordLine(Unicode, "orientation", name);
    ParsePlayerTokens("player" + " " + rest, rest, "orientation", name, lastDir);
  }

  /** "player animation A": the element carries the animation and the last
      direction, which stays as it was. */
  lemma ParsePlayerAnimation(anim: string, lastDir: int)
    requires IsWord(Unicode, anim)
    ensures ParseElement("player" + " " + ("animation" + " " + anim + "\n"), lastDir) ==
      Ok((Element("player", false, "animation", lastDir, anim), lastDir))
  {
    var rest := "animation" + " " + anim + "\n";
    KeywordsAreWords();
    CutAfterKeyword("player", rest);
    SplitTwoWordLine(Unicode, "animation", anim);
    ParsePlayerTokens("player" + " " + rest, rest, "animation", anim, lastDir);
  }

  /** Any other player sub-command leaves the element unbound. */
  lemma ParsePlayerOther(word: string, arg: string, lastDir: int)
    requires IsWord(Unicode, word) && IsWord(Unicode, arg) && word != "orientation" && word != "animation"
    ensures ParseElement("player" + " " + (word + " " + arg + "\n"), lastDir) == Err("UnboundLocalError")
  {
    var rest := word + " " + arg + "\n";
    KeywordsAreWords();
    CutAfterKeyword("player", rest);
    SplitTwoWordLine(Unicode, word, arg);
    ParsePlayerTokens("player" + " " + rest, rest, word, arg, lastDir);
  }

  /** A line whose first word is neither "dialogue" nor "player" gives a bare
      element of that type, whatever follows. */
  lemma ParseOther(key: string, rest: string, lastDir: int)
    requires IsWord(Unicode, key) && key != "dialogue" && key != "player"
    ensures ParseElement(key + " " + rest, lastDir) == Ok((Bare(key), lastDir))
  {
    CutAfterKeyword(key, rest);
  }

  // ---------------------------------------------------------------- next_element

  /** The position of the cursor: the index of the element handed out last
      (-1 before the first of a pass) and the number of finished passes. */
  datatype Cursor = Cursor(counter: int, repeated: int)

  /** The invariant the cursor keeps between calls. */
  predicate CursorInv(c: Cursor, count: nat, times: int) {
    -1 <= c.counter < count && 0 <= c.repeated && (times >= 0 ==> c.repeated <= times)
  }

  /** next_element on an event with elements `es` declared to run `times` times:
      the element handed out and the cursor afterwards. */
  function Next(es: seq<Element>, c: Cursor, times: int): (r: (Element, Cursor))
    requires c.counter >= -1
    ensures r.1.counter >= -1
  {
    if c.repeated == times then (End, c)
    else if c.counter + 1 < |es| then (es[c.counter + 1], Cursor(c.counter + 1, c.repeated))
    else (End, Cursor(-1, c.repeated + 1))
  }

  /** next_element keeps the cursor invariant. */
  lemma NextKeepsInv(es: seq<Element>, c: Cursor, times: int)
    requires CursorInv(c, |es|, times)
    ensures CursorInv(Next(es, c, times).1, |es|, times)
  {
  }

  /** The elements handed out by `n` calls in a row, and the cursor after them. */
  function Run(es: seq<Element>, c: Cursor, times: int, n: nat): (r: (seq<Element>, Cursor))
    requires c.counter >= -1
    ensures |r.0| == n && r.1.counter >= -1
    decreases n
  {
    if n == 0 then ([], c)
    else
      var first := Next(es, c, times);
      var rest := Run(es, first.1, times, n - 1);
      ([first.0] + rest.0, rest.1)
  }

  /** `n` "end" elements. */
  function Ends(n: nat): seq<Element> {
    seq(n, i => End)
  }

  /** `s` repeated `k` times. */
  function Repeat(s: seq<Element>, k: nat): (r: seq<Element>)
    ensures |r| == k * |s|
  {
    if k == 0 then [] else s + Repeat(s, k - 1)
  }

  /** Once the event has run its `times`, every call hands out "end" and the
      cursor no longer moves. */
  lemma {:induction false} RunWhenDone(es: seq<Element>, c: Cursor, times: int, n: nat)
    requires c.counter >= -1 && c.repeated == times
    ensures Run(es, c, times, n) == (Ends(n), c)
    decreases n
  {
    if n == 0 {
      assert Ends(0) == [];
    } else {
      RunWhenDone(es, c, times, n - 1);
      assert [End] + Ends(n - 1) == Ends(n);
    }
  }

  /** Calls compose: `a + b` calls are `a` calls followed by `b` calls from
      where the first ones left the cursor. */
  lemma {:induction false} RunSplits(es: seq<Element>, c: Cursor, times: int, a: nat, b: nat)
    requires c.counter >= -1
    ensures var first := Run(es, c, times, a);
      var second := Run(es, first.1, times, b);
      Run(es, c, times, a + b) == (first.0 + second.0, second.1)
    decreases a
  {
    if a == 0 {
      assert a + b == b;
      assert Run(es, c, times, a) == ([], c);
      assert [] + Run(es, c, times, b).0 == Run(es, c, times, b).0;
    } else {
      var step := Next(es, c, times);
      RunSplits(es, step.1, times, a - 1, b);
      var first := Run(es, step.1, times, a - 1);
      var second := Run(es, first.1, times, b);
      assert Run(es, c, times, a + b).0 == [step.0] + Run(es, step.1, times, a - 1 + b).0;
      assert [step.0] + (first.0 + second.0) == ([step.0] + first.0) + second.0;
    }
  }

  /** The rest of a pass: from just before element `k`, the elements from `k`
      on, then "end", after which the next pass begins. */
  lemma {:induction false} RunRestOfPass(es: seq<Element>, k: nat, r: int, times: int)
    requires k <= |es| && r != times
    ensures Run(es, Cursor(k - 1, r), times, |es| - k + 1) == (es[k..] + [End], Cursor(-1, r + 1))
    decreases |es| - k
  {
    if k == |es| {
      assert es[k..] == [];
      assert Next(es, Cursor(k - 1, r), times) == (End, Cursor(-1, r + 1));
      assert Run(es, Cursor(-1, r + 1), times, 0) == ([], Cursor(-1, r + 1));
      assert Run(es, Cursor(k - 1, r), times, 1) == ([End] + [], Cursor(-1, r + 1));
      assert |es| - k + 1 == 1;
      assert es[k..] + [End] == [End] + [];
    } else {
      RunRestOfPass(es, k + 1, r, times);
      var n := |es| - k + 1;
      assert Next(es, Cursor(k - 1, r), times) == (es[k], Cursor(k, r));
      assert Run(es, Cursor(k, r), times, n - 1) == (es[k + 1..] + [End], Cursor(-1, r + 1));
      assert es[k..] + [End] == [es[k]] + (es[k + 1..] + [End]);
    }
  }

  /** A whole pass from the start of the list: every element in order, then "end". */
  lemma OnePass(es: seq<Element>, r: int, times: int)
    requires r != times
    ensures Run(es, Cursor(-1, r), times, |es| + 1) == (es + [End], Cursor(-1, r + 1))
  {
    RunRestOfPass(es, 0, r, times);
    assert es[0..] == es;
  }

  /** `k` passes from a new event, as long as the event is not over before
      them (always when `times` is negative). */
  lemma {:induction false} RunPasses(es: seq<Element>, times: int, k: nat)
    requires times < 0 || k <= times
    ensures Run(es, Cursor(-1, 0), times, k * (|es| + 1)) == (Repeat(es + [End], k), Cursor(-1, k))
  {
    if k > 0 {
      var len := |es| + 1;
      RunPasses(es, times, k - 1);
      assert k * len == (k - 1) * len + len;
      RunSplits(es, Cursor(-1, 0), times, (k - 1) * len, len);
      OnePass(es, k - 1, times);
      assert Repeat(es + [End], k) == Repeat(es + [End], k - 1) + (es + [End]) by {
        RepeatSnoc(es + [End], k - 1);
      }
    }
  }

  lemma {:induction false} RepeatSnoc(s: seq<Element>, k: nat)
    ensures Repeat(s, k + 1) == Repeat(s, k) + s
  {
    if k > 0 {
      RepeatSnoc(s, k - 1);
    }
  }

  /** For `times >= 0` the event hands out its elements followed by "end"
      exactly `times` times, and "end" for ever after. */
  lemma RunToCompletion(es: seq<Element>, times: int, n: nat)
    requires times >= 0
    ensures Run(es, Cursor(-1, 0), times, times * (|es| + 1) + n) ==
      (Repeat(es + [End], times) + Ends(n), Cursor(-1, times))
  {
    RunPasses(es, times, times);
    RunSplits(es, Cursor(-1, 0), times, times * (|es| + 1), n);
    RunWhenDone(es, Cursor(-1, times), times, n);
  }

  /** An event declared to run 0 times only ever hands out "end". */
  lemma NeverRuns(es: seq<Element>, n: nat)
    ensures Run(es, Cursor(-1, 0), 0, n).0 == Ends(n)
  {
    RunWhenDone(es, Cursor(-1, 0), 0, n);
  }

  /** Two elements, once: e0, e1, end, end, end. */
  lemma TwoElementsOnce(e0: Element, e1: Element)
    ensures Run([e0, e1], Cursor(-1, 0), 1, 5).0 == [e0, e1, End, End, End]
  {
    RunToCompletion([e0, e1], 1, 2);
    assert Ends(2) == [End, End];
  }

  /** Two elements, twice: e0, e1, end, e0, e1, end, end. */
  lemma TwoElementsTwice(e0: Element, e1: Element)
    ensures Run([e0, e1], Cursor(-1, 0), 2, 7).0 == [e0, e1, End, e0, e1, End, End]
  {
    RunToCompletion([e0, e1], 2, 1);
    assert Repeat([e0, e1] + [End], 2) == [e0, e1, End, e0, e1, End];
    assert Ends(1) == [End];
  }

  // ---------------------------------------------------------------- the event object

  class ScriptedEvent {
    const triggerType: string
    const times: int
    var elements: seq<Element>
    var counter: int
    var lastDir: int
    var repeated: int

    predicate Valid()
      reads this
    {
      CursorInv(Cursor(counter, repeated), |elements|, times)
    }

    /** Scripted_event.__init__: no elements, the cursor before the first
        element of the first pass, and RIGHT as the last direction. */
    constructor (triggerType: string, times: int)
      ensures this.triggerType == triggerType && this.times == times
      ensures elements == [] && counter == -1 && repeated == 0 && lastDir == RIGHT
      ensures Valid()
    {
      this.triggerType := triggerType;
      this.times := times;
      elements := [];
      counter := -1;
      lastDir := RIGHT;
      repeated := 0;
    }

    /** add_element: the element the line stands for (as `ParseElement`
        reads it) is appended and the last direction updated; when the line
        raises, nothing changes. */
    method AddElement(line: string) returns (ok: bool)
      requires Valid()
      modifies this
      ensures Valid()
      ensures counter == old(counter) && repeated == old(repeated)
      ensures match ParseElement(line, old(lastDir))
        case Ok((e, d)) => ok && elements == old(elements) + [e] && lastDir == d
        case Err(_) => !ok && elements == old(elements) && lastDir == old(lastDir)
    {
      match ParseElement(line, lastDir)
      case Ok((e, d)) =>
        elements := elements + [e];
        lastDir := d;
        ok := true;
      case Err(_) =>
        ok := false;
    }

    /** next_element: the cursor moves as `Next` says and the elements and the
        last direction stay as they are. */
    method NextElement() returns (e: Element)
      requires Valid()
      modifies this
      ensures Valid()
      ensures (e, Cursor(counter, repeated)) == Next(elements, Cursor(old(counter), old(repeated)), times)
      ensures elements == old(elements) && lastDir == old(lastDir)
    {
      if repeated == times {
        return End;
      }
      counter := counter + 1;
      if counter < |elements| {
        return elements[counter];
      } else {
        repeated := repeated + 1;
        counter := -1;
        return End;
      }
    }
  }
}
