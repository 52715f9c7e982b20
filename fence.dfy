/** The clean-up applied to the model's reply before `JSON.parse`:
    `text.replace(/^(\n)?```json\n/, '').replace(/```(\n)?$/, '')`.
    Without the `m` flag `^` and `$` anchor at the ends of the whole text. */
module Fence {

  const Opening: string := "```json\n"
  const Closing: string := "```"

  /** The first replacement: an opening fence, optionally preceded by one
      newline, is removed from the start. */
  function StripOpening(text: string): (r: string)
    ensures r == text || ("\n" + Opening + r == text) || (Opening + r == text)
    ensures ((|text| >= 8 && text[..8] == Opening) || (|text| >= 9 && text[..9] == "\n" + Opening)) <==> r != text
    ensures |text| >= 9 && text[..9] == "\n" + Opening ==> r == text[9..]
    ensures |text| >= 8 && text[..8] == Opening ==> r == text[8..]
  {
    if |text| >= 9 && text[..9] == "\n" + Opening then
      // the two forms differ in their first character
      assert text[0] == text[..9][0] == '\n' && text[..8][0] == '\n';
      text[9..]
    else if |text| >= 8 && text[..8] == Opening then text[8..]
    else text
  }

  /** The second replacement: a closing fence, optionally followed by one
      newline, is removed from the end. A text cannot end with both forms,
      since their last characters differ. */
  function StripClosing(text: string): (r: string)
    ensures r == text || (r + Closing + "\n" == text) || (r + Closing == text)
    ensures ((|text| >= 3 && text[|text| - 3..] == Closing) || (|text| >= 4 && text[|text| - 4..] == Closing + "\n")) <==> r != text
    ensures |text| >= 4 && text[|text| - 4..] == Closing + "\n" ==> r == text[..|text| - 4]
    ensures |text| >= 3 && text[|text| - 3..] == Closing ==> r == text[..|text| - 3]
  {
    if |text| >= 4 && text[|text| - 4..] == Closing + "\n" then
      // the two forms differ in their last character
      assert text[|text| - 4..][3] == '\n' && text[|text| - 3..][2] == '\n';
      text[..|text| - 4]
    else if |text| >= 3 && text[|text| - 3..] == Closing then text[..|text| - 3]
    else text
  }

  function StripFence(text: string): string {
    StripClosing(StripOpening(text))
  }

  /** A body wrapped in "```json\n" and "```" comes back exactly; so does one
      wrapped with the optional newlines the expressions allow. */
  lemma StripFenceWrapped(body: string)
    ensures StripFence(Opening + body + Closing) == body
    ensures StripFence("\n" + Opening + body + Closing + "\n") == body
  {
    var a := Opening + body + Closing;
    assert a[0] == '`';
    assert a[..8] == Opening;
    assert a[8..] == body + Closing;
    var b := body + Closing;
    assert b[|b| - 1] == '`';
    assert b[|b| - 3..] == Closing;
    assert b[..|b| - 3] == body;
    var c := "\n" + Opening + body + Closing + "\n";
    assert c[..9] == "\n" + Opening;
    assert c[9..] == body + Closing + "\n";
    var d := body + Closing + "\n";
    assert d[|d| - 4..] == Closing + "\n";
    assert d[..|d| - 4] == body;
  }

  /** Text that carries neither fence, in either of its forms, passes
      through unchanged. */
  lemma StripFenceUnfenced(text: string)
    requires !(|text| >= 8 && text[..8] == Opening)
    requires !(|text| >= 9 && text[..9] == "\n" + Opening)
    requires !(|text| >= 3 && text[|text| - 3..] == Closing)
    requires !(|text| >= 4 && text[|text| - 4..] == Closing + "\n")
    ensures StripFence(text) == text
  {
    assert StripOpening(text) == text;
  }

  /** The first replacement keeps a suffix of the text. */
  lemma StripOpeningSlice(text: string) returns (i: nat)
    ensures i <= 9 && i <= |text| && StripOpening(text) == text[i..]
  {
    if |text| >= 9 && text[..9] == "\n" + Opening {
      i := 9;
    } else if |text| >= 8 && text[..8] == Opening {
      i := 8;
    } else {
      i := 0;
    }
  }

  /** The second replacement keeps a prefix of the text. */
  lemma StripClosingSlice(text: string) returns (j: nat)
    ensures j <= 4 && j <= |text| && StripClosing(text) == text[..|text| - j]
  {
    if |text| >= 4 && text[|text| - 4..] == Closing + "\n" {
      j := 4;
    } else if |text| >= 3 && text[|text| - 3..] == Closing {
      j := 3;
    } else {
      j := 0;
    }
  }

  /** Whatever the text, the result is a contiguous piece of it and at most
      nine characters shorter at the front and four at the back. */
  lemma StripFenceSlice(text: string) returns (i: nat, j: nat)
    ensures i <= 9 && j <= 4 && i + j <= |text|
    ensures StripFence(text) == text[i..|text| - j]
  {
    i := StripOpeningSlice(text);
    var o := text[i..];
    j := StripClosingSlice(o);
    assert o[..|o| - j] == text[i..|text| - j];
  }
}
