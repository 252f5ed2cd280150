/** The interactive selector of fcd (`interactiveSelect`): the display cap,
    the highlighted rendering of the candidate list, and the key-driven
    state machine that ends in a confirmed path or a cancellation. */
module Selector {
  import opened Ranking

  /** At most this many candidates are shown. */
  const MaxDisplay := 20

  /** The candidates shown: the first `MaxDisplay` of the sorted list. */
  function Shown(candidates: seq<Candidate>): (s: seq<Candidate>)
    ensures |s| <= MaxDisplay && |s| <= |candidates|
    ensures |s| == MaxDisplay || s == candidates
    ensures s == candidates[..|s|]
  {
    if |candidates| <= MaxDisplay then candidates else candidates[..MaxDisplay]
  }

  // ANSI escapes used around highlighted characters and the selected row.
  const Red := "\U{1b}[31m"
  const DefaultColor := "\U{1b}[39m"
  const Inverse := "\U{1b}[7m"
  const ResetStyle := "\U{1b}[0m"

  /** The piece `colorizeMatch` writes for one character. */
  function Piece(ch: char, highlighted: bool): (r: string)
  {
    if highlighted then Red + [ch] + DefaultColor else [ch]
  }

  /** `text` with every character whose index is in `positions` wrapped in
      red, built left to right as `colorizeMatch` appends to its output. */
  function Colorized(text: string, positions: seq<nat>): string
    decreases |text|
  {
    if text == [] then []
    else
      var i := |text| - 1;
      Colorized(text[..i], positions) + Piece(text[i], i in positions)
  }

  /** The number of indices of `text` that are highlighted. */
  function Highlighted(n: nat, positions: seq<nat>): nat
  {
    if n == 0 then 0 else Highlighted(n - 1, positions) + (if n - 1 in positions then 1 else 0)
  }

  /** Without a position inside the text nothing is highlighted. */
  lemma {:induction false} ColorizedPlain(text: string, positions: seq<nat>)
    requires forall i :: 0 <= i < |text| ==> i !in positions
    ensures Colorized(text, positions) == text
  {
    if text != [] {
      var i := |text| - 1;
      ColorizedPlain(text[..i], positions);
      assert text == text[..i] + [text[i]];
    }
  }

  /** Each highlighted character costs the ten characters of its two escapes. */
  lemma {:induction false} ColorizedLength(text: string, positions: seq<nat>)
    ensures |Colorized(text, positions)| == |text| + 10 * Highlighted(|text|, positions)
  {
    if text != [] {
      var i := |text| - 1;
      ColorizedLength(text[..i], positions);
    }
  }

  /** Colorizing a longer text extends the colorized prefix. */
  lemma ColorizedPrefix(text: string, positions: seq<nat>, i: nat)
    requires i < |text|
    ensures Colorized(text[..i + 1], positions)
      == Colorized(text[..i], positions) + Piece(text[i], i in positions)
  {
    assert text[..i + 1][..i] == text[..i];
  }

  /** colorizeMatch: one loop over the text appending each character,
      wrapped in red when its index was matched. */
  method ColorizeMatch(text: string, positions: seq<nat>) returns (out: string)
    ensures out == Colorized(text, positions)
  {
    if |positions| == 0 {
      ColorizedPlain(text, positions);
      return text;
    }
    out := "";
    for i := 0 to |text|
      invariant out == Colorized(text[..i], positions)
    {
      var ch := text[i];
      ColorizedPrefix(text, positions, i);
      if i in positions {
        out := out + Red + [ch] + DefaultColor;
      } else {
        out := out + [ch];
      }
    }
    assert text[..|text|] == text;
  }

  /** The first line of every frame. */
  const Hint := "Use \U{2191}/\U{2193} or j/k (g/G to jump), Enter to select, q to cancel."

  /** The path shown for a candidate: its path relative to the working
      directory, or "." when that is empty. */
  function DisplayPath(relative: string): (r: string)
    ensures r != []
    ensures relative == [] ==> r == "."
    ensures relative != [] ==> r == relative
  {
    if relative == [] then "." else relative
  }

  /** One candidate row: a marker, the highlighted base name and the path,
      in inverse video when the row is the selected one. */
  function Row(c: Candidate, selected: bool, relative: string -> string): string
  {
    var line := (if selected then ">" else " ") + " " + Colorized(c.base, c.matchPositions)
      + "   " + DisplayPath(relative(c.dir));
    if selected then Inverse + line + ResetStyle else line
  }

  /** One row per shown candidate, the one at `index` selected. */
  function Rows(shown: seq<Candidate>, index: int, relative: string -> string): (rows: seq<string>)
    ensures |rows| == |shown|
    ensures forall i :: 0 <= i < |shown| ==> rows[i] == Row(shown[i], i == index, relative)
  {
    seq(|shown|, i requires 0 <= i < |shown| => Row(shown[i], i == index, relative))
  }

  /** The lines `render` writes: the hint, then one row per shown candidate;
      `relative` stands for `path.relative` from the working directory. */
  function Render(shown: seq<Candidate>, index: int, relative: string -> string): (lines: seq<string>)
    ensures |lines| == |shown| + 1
    ensures lines[0] == Hint
    ensures forall i :: 0 <= i < |shown| ==> lines[i + 1] == Row(shown[i], i == index, relative)
  {
    var rows := Rows(shown, index, relative);
    assert forall i :: 0 <= i < |shown| ==> ([Hint] + rows)[i + 1] == rows[i];
    [Hint] + rows
  }

  /** A selected row starts with the inverse style and the `>` marker; an
      unselected one starts with a blank. */
  lemma RowMarks(c: Candidate, selected: bool, relative: string -> string)
    ensures var line := Row(c, selected, relative);
      && (selected ==> line[..|Inverse| + 1] == Inverse + ">")
      && (!selected ==> line[0] == ' ')
      && (selected <==> line[..|Inverse|] == Inverse)
  {
    var line := Row(c, selected, relative);
    var tail := " " + Colorized(c.base, c.matchPositions) + "   " + DisplayPath(relative(c.dir));
    if selected {
      assert line == Inverse + (">" + tail) + ResetStyle;
      assert line[..|Inverse| + 1] == Inverse + ">";
    } else {
      assert line == " " + tail;
      assert line[0] == ' ' != Inverse[0];
    }
  }

  /** Only the row at `index` carries the `>` marker and the inverse style;
      every other row starts with a blank. */
  lemma RenderMarksSelected(shown: seq<Candidate>, index: int, relative: string -> string, i: nat)
    requires i < |shown|
    ensures var line := Render(shown, index, relative)[i + 1];
      && (i == index ==> line[..|Inverse| + 1] == Inverse + ">")
      && (i != index ==> line[0] == ' ')
      && (i == index <==> line[..|Inverse|] == Inverse)
  {
    RowMarks(shown[i], i == index, relative);
  }

  /** What a key press asks for. */
  datatype Motion = Up | Down | Top | Bottom
  datatype Action = Cancel | Confirm | Move(m: Motion) | Ignore

  /** The dispatch of `onData` on the raw input chunk: Ctrl-C, Escape and
      `q` cancel; carriage return and newline confirm; the arrow keys and
      k/K, j/J move by one; g and G jump to the ends; all else is ignored. */
  function Classify(key: string): Action
  {
    if key == "\U{3}" || key == "\U{1b}" || key == "q" then Cancel
    else if key == "\r" || key == "\n" then Confirm
    else if key == "\U{1b}[A" then Move(Up)
    else if key == "\U{1b}[B" then Move(Down)
    else if key == "k" || key == "K" then Move(Up)
    else if key == "j" || key == "J" then Move(Down)
    else if key == "g" then Move(Top)
    else if key == "G" then Move(Bottom)
    else Ignore
  }

  /** The cursor after a motion over `n` rows: up and down wrap around. */
  function Moved(n: nat, index: int, m: Motion): (j: int)
    requires n >= 1
    ensures 0 <= index < n ==> 0 <= j < n
    ensures 0 <= index < n && m == Up ==> j == (if index == 0 then n - 1 else index - 1)
    ensures 0 <= index < n && m == Down ==> j == (if index == n - 1 then 0 else index + 1)
    ensures m == Top ==> j == 0
    ensures m == Bottom ==> j == n - 1
  {
    WrapAround(n, index);
    match m
    case Up => (index - 1 + n) % n
    case Down => (index + 1) % n
    case Top => 0
    case Bottom => n - 1
  }

  /** The remainder of a value below twice the modulus. */
  lemma ModRange(a: int, n: int)
    requires n >= 1 && 0 <= a < 2 * n
    ensures a % n == (if a < n then a else a - n)
  {
    var q := a / n;
    var r := a % n;
    assert a == q * n + r && 0 <= r < n;
    assert q <= -1 ==> q * n <= -n;
    assert q >= 2 ==> q * n >= 2 * n;
  }

  /** Stepping up or down from a row in [0, n) modulo n moves by one, except
      that row 0 goes to n - 1 and row n - 1 to 0. */
  lemma WrapAround(n: int, index: int)
    requires n >= 1
    ensures 0 <= index < n ==> (index - 1 + n) % n == (if index == 0 then n - 1 else index - 1)
    ensures 0 <= index < n ==> (index + 1) % n == (if index == n - 1 then 0 else index + 1)
  {
    if 0 <= index < n {
      ModRange(index - 1 + n, n);
      ModRange(index + 1, n);
    }
  }

  /** Up then down, and down then up, return to the starting row. */
  lemma UpDownInverse(n: nat, index: int)
    requires 0 <= index < n
    ensures Moved(n, Moved(n, index, Up), Down) == index
    ensures Moved(n, Moved(n, index, Down), Up) == index
  {
  }

  /** Where the session ends: still browsing, a confirmed path, or cancelled. */
  datatype Outcome = Browsing | Confirmed(dir: string) | Cancelled

  /** The outcome of feeding `keys` to a session over `shown` whose cursor
      is at `index`; keys after the session resolves are never delivered. */
  function Run(shown: seq<Candidate>, index: int, keys: seq<string>): (o: Outcome)
    requires 0 <= index < |shown|
    ensures o.Confirmed? ==> exists k :: 0 <= k < |shown| && shown[k].dir == o.dir
    decreases |keys|
  {
    if keys == [] then Browsing
    else
      match Classify(keys[0])
      case Cancel => Cancelled
      case Confirm => Confirmed(shown[index].dir)
      case Move(m) => Run(shown, Moved(|shown|, index, m), keys[1..])
      case Ignore => Run(shown, index, keys[1..])
  }

  /** The number of re-renders `keys` cause before the session resolves. */
  function Redraws(shown: seq<Candidate>, index: int, keys: seq<string>): nat
    requires 0 <= index < |shown|
    decreases |keys|
  {
    if keys == [] then 0
    else
      match Classify(keys[0])
      case Move(m) => 1 + Redraws(shown, Moved(|shown|, index, m), keys[1..])
      case Ignore => Redraws(shown, index, keys[1..])
      case _ => 0
  }

  /** Cancelling keys end the session from any row. */
  lemma CancelFromAnywhere(shown: seq<Candidate>, index: int, key: string, keys: seq<string>)
    requires 0 <= index < |shown|
    requires key == "q" || key == "\U{1b}" || key == "\U{3}"
    ensures Run(shown, index, [key] + keys) == Cancelled
  {
  }

  /** Enter confirms the row under the cursor. */
  lemma EnterConfirmsCursor(shown: seq<Candidate>, index: int, key: string, keys: seq<string>)
    requires 0 <= index < |shown|
    requires key == "\r" || key == "\n"
    ensures Run(shown, index, [key] + keys) == Confirmed(shown[index].dir)
  {
  }

  /** An ignored key neither moves the cursor nor redraws. */
  lemma IgnoredKeyInert(shown: seq<Candidate>, index: int, key: string, keys: seq<string>)
    requires 0 <= index < |shown|
    requires Classify(key) == Ignore
    ensures Run(shown, index, [key] + keys) == Run(shown, index, keys)
    ensures Redraws(shown, index, [key] + keys) == Redraws(shown, index, keys)
  {
    assert ([key] + keys)[1..] == keys;
  }

  /** "k" then "j" leaves the outcome unchanged, with two extra redraws. */
  lemma UpThenDownCancels(shown: seq<Candidate>, index: int, keys: seq<string>)
    requires 0 <= index < |shown|
    ensures Run(shown, index, ["k", "j"] + keys) == Run(shown, index, keys)
    ensures Redraws(shown, index, ["k", "j"] + keys) == 2 + Redraws(shown, index, keys)
  {
    var n := |shown|;
    UpDownInverse(n, index);
    var up := Moved(n, index, Up);
    assert (["k", "j"] + keys)[1..] == ["j"] + keys;
    assert (["j"] + keys)[1..] == keys;
    assert Run(shown, index, ["k", "j"] + keys) == Run(shown, up, ["j"] + keys);
    assert Redraws(shown, index, ["k", "j"] + keys) == 1 + Redraws(shown, up, ["j"] + keys);
  }

  /** "g" then Enter confirms the best candidate; "G" then Enter the last one shown. */
  lemma JumpsThenEnter(shown: seq<Candidate>, index: int)
    requires 0 <= index < |shown|
    ensures Run(shown, index, ["g", "\r"]) == Confirmed(shown[0].dir)
    ensures Run(shown, index, ["G", "\r"]) == Confirmed(shown[|shown| - 1].dir)
  {
    assert ["g", "\r"][1..] == ["\r"];
    assert ["G", "\r"][1..] == ["\r"];
  }

  /** The live session: the shown candidates, the cursor, whether the key
      listener is still attached (and the terminal in raw mode), and how
      many frames have been drawn. */
  class Session {
    const shown: seq<Candidate>
    var index: int
    var listening: bool
    var renders: nat

    ghost predicate Valid()
      reads this
    {
      1 <= |shown| <= MaxDisplay && 0 <= index < |shown|
    }

    /** Entering the browsing state: cap the list, put the cursor on the
        first row, attach the listener and draw the first frame. */
    constructor (candidates: seq<Candidate>)
      requires |candidates| >= 1
      ensures Valid()
      ensures shown == Shown(candidates) && index == 0
      ensures listening && renders == 1
    {
      shown := Shown(candidates);
      index := 0;
      listening := true;
      renders := 1;
    }

    /** The frame currently on screen. */
    function Frame(relative: string -> string): (lines: seq<string>)
      reads this
      requires Valid()
      ensures |lines| == |shown| + 1
      ensures lines[0] == Hint && lines[index + 1] == Row(shown[index], true, relative)
    {
      Render(shown, index, relative)
    }

    /** onData: handle one input chunk. A cancelling or confirming key
        detaches the listener (cleanup) and resolves; a motion key moves the
        cursor and redraws; anything else changes nothing. */
    method Step(key: string) returns (o: Outcome)
      requires Valid() && listening
      modifies this
      ensures Valid()
      ensures listening <==> o == Browsing
      ensures Classify(key) == Cancel ==> o == Cancelled
      ensures Classify(key) == Confirm ==> o == Confirmed(shown[old(index)].dir)
      ensures Classify(key).Move? ==>
        o == Browsing && index == Moved(|shown|, old(index), Classify(key).m)
        && renders == old(renders) + 1
      ensures !Classify(key).Move? ==> index == old(index) && renders == old(renders)
      ensures Classify(key) == Ignore ==> o == Browsing
      ensures o == Run(shown, old(index), [key])
    {
      if key == "\U{3}" || key == "\U{1b}" || key == "q" {
        listening := false;
        return Cancelled;
      }
      if key == "\r" || key == "\n" {
        var selection := shown[index];
        listening := false;
        return Confirmed(selection.dir);
      }
      if key == "\U{1b}[A" {
        index := (index - 1 + |shown|) % |shown|;
        renders := renders + 1;
        return Browsing;
      }
      if key == "\U{1b}[B" {
        index := (index + 1) % |shown|;
        renders := renders + 1;
        return Browsing;
      }
      if key == "k" || key == "K" {
        index := (index - 1 + |shown|) % |shown|;
        renders := renders + 1;
        return Browsing;
      }
      if key == "j" || key == "J" {
        index := (index + 1) % |shown|;
        renders := renders + 1;
        return Browsing;
      }
      if key == "g" {
        index := 0;
        renders := renders + 1;
        return Browsing;
      }
      if key == "G" {
        index := |shown| - 1;
        renders := renders + 1;
        return Browsing;
      }
      return Browsing;
    }
  }

  /** interactiveSelect over a given sequence of key presses. Without a
      terminal it resolves at once to the best candidate and draws nothing;
      otherwise it runs a session until a key resolves it or the keys run out
      (the promise is then still pending: `Browsing`). `frames` counts the
      frames drawn. */
  method InteractiveSelect(candidates: seq<Candidate>, interactive: bool, keys: seq<string>)
    returns (o: Outcome, frames: nat)
    requires |candidates| >= 1
    ensures !interactive ==> o == Confirmed(candidates[0].dir) && frames == 0
    ensures interactive ==> o == Run(Shown(candidates), 0, keys)
    ensures interactive ==> frames == 1 + Redraws(Shown(candidates), 0, keys)
  {
    if !interactive {
      return Confirmed(candidates[0].dir), 0;
    }
    var session := new Session(candidates);
    ghost var shown := session.shown;
    o := Browsing;
    var i := 0;
    while i < |keys| && o == Browsing
      invariant 0 <= i <= |keys|
      invariant session.Valid() && session.shown == shown
      invariant o == Browsing ==> session.listening
      invariant o == Browsing ==> Run(shown, 0, keys) == Run(shown, session.index, keys[i..])
      invariant o == Browsing ==>
        1 + Redraws(shown, 0, keys) == session.renders + Redraws(shown, session.index, keys[i..])
      invariant o != Browsing ==> o == Run(shown, 0, keys)
      invariant o != Browsing ==> session.renders == 1 + Redraws(shown, 0, keys)
      decreases |keys| - i
    {
      ghost var before := session.index;
      assert keys[i..][1..] == keys[i + 1..];
      o := session.Step(keys[i]);
      i := i + 1;
    }
    frames := session.renders;
  }
}
