/** The row of asterisks a masked password prompt keeps on the terminal line.

    The screen is a line and a cursor. Both terminals report how many characters are held, and
    the prompt writes asterisks or takes some away with backspace, space and backspace; after
    each report the line is the caption with one asterisk for each character. */
module PasswordMask {

  /** One terminal line that never wraps, and the column the next character goes to. */
  datatype Screen = Screen(line: string, cursor: nat)

  const BACKSPACE: char := 8 as char

  /** Back over one cell, blank it, and back again. */
  const ERASE: string := [BACKSPACE, ' ', BACKSPACE]

  function Put(screen: Screen, c: char): (r: Screen) {
    var Screen(line, cursor) := screen;
    if c == BACKSPACE then Screen(line, if cursor > 0 then cursor - 1 else 0)
    else if cursor < |line| then Screen(line[cursor := c], cursor + 1)
    else Screen(line + [c], |line| + 1)
  }

  function Write(screen: Screen, text: string): Screen
    decreases |text|
  {
    if text == [] then screen else Write(Put(screen, text[0]), text[1..])
  }

  /** strings.Repeat. */
  function Repeat(text: string, count: nat): string {
    if count == 0 then "" else text + Repeat(text, count - 1)
  }

  function Stars(count: nat): (r: string)
    ensures |r| == count && forall i :: 0 <= i < count ==> r[i] == '*'
  {
    seq(count, _ => '*')
  }

  /** The line reads: the caption, then count asterisks, then blanks. */
  ghost predicate Shows(screen: Screen, caption: string, count: nat) {
    && screen.cursor == |caption| + count <= |screen.line|
    && screen.line[..screen.cursor] == caption + Stars(count)
    && forall i :: screen.cursor <= i < |screen.line| ==> screen.line[i] == ' '
  }

  lemma {:induction false} WritesStars(screen: Screen, caption: string, count: nat, more: nat)
    requires Shows(screen, caption, count)
    ensures Shows(Write(screen, Repeat("*", more)), caption, count + more)
    decreases more
  {
    if more > 0 {
      var next := Put(screen, '*');
      assert caption + Stars(count + 1) == caption + Stars(count) + ['*'];
      assert next.line[..next.cursor] == screen.line[..screen.cursor] + ['*'];
      assert Repeat("*", more)[1..] == Repeat("*", more - 1);
      WritesStars(next, caption, count + 1, more - 1);
    }
  }

  lemma {:induction false} ErasesStars(screen: Screen, caption: string, count: nat, fewer: nat)
    requires Shows(screen, caption, count) && fewer <= count
    ensures Shows(Write(screen, Repeat(ERASE, fewer)), caption, count - fewer)
    decreases fewer
  {
    if fewer > 0 {
      var back := Put(screen, BACKSPACE);
      var blank := Put(back, ' ');
      var next := Put(blank, BACKSPACE);
      assert next == Screen(screen.line[screen.cursor - 1 := ' '], screen.cursor - 1);
      assert next.line[..next.cursor] == screen.line[..screen.cursor][..next.cursor];
      assert (caption + Stars(count))[..next.cursor] == caption + Stars(count - 1);
      ErasesStars(next, caption, count - 1, fewer - 1);
      var rest := Repeat(ERASE, fewer - 1);
      var text := Repeat(ERASE, fewer);
      assert text == ERASE + rest;
      assert text[1..] == [' ', BACKSPACE] + rest;
      assert text[1..][1..] == [BACKSPACE] + rest;
      assert text[1..][1..][1..] == rest;
      assert Write(screen, text) == Write(back, text[1..]);
      assert Write(back, text[1..]) == Write(blank, text[1..][1..]);
      assert Write(blank, text[1..][1..]) == Write(next, rest);
    }
  }

  /** The prompt of promptMaskedPassword: its feedback closure and the line it writes. */
  class MaskedPrompt {
    const caption: string
    var screen: Screen
    var maskCount: nat

    ghost predicate Valid()
      reads this
    {
      Shows(screen, caption, maskCount)
    }

    constructor (caption: string)
      ensures Valid() && this.caption == caption && maskCount == 0
    {
      this.caption := caption;
      this.screen := Screen(caption, |caption|);
      this.maskCount := 0;
      new;
      assert caption + Stars(0) == caption;
    }

    /** After every call the line shows exactly next asterisks. */
    method Feedback(next: nat)
      requires Valid()
      modifies this
      ensures Valid() && maskCount == next
    {
      if next > maskCount {
        WritesStars(screen, caption, maskCount, next - maskCount);
        screen := Write(screen, Repeat("*", next - maskCount));
      } else if next < maskCount {
        ErasesStars(screen, caption, maskCount, maskCount - next);
        screen := Write(screen, Repeat(ERASE, maskCount - next));
      }
      maskCount := next;
    }
  }
}
