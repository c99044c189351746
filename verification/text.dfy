/** What `str.strip` does to a text. */
module Text {
  /** The characters `str.strip` removes. */
  predicate IsSpace(c: char) {
    var n := c as int;
    || 9 <= n <= 13 || 28 <= n <= 32 || n == 133 || n == 160 || n == 5760 || 8192 <= n <= 8202
    || n == 8232 || n == 8233 || n == 8239 || n == 8287 || n == 12288
  }

  function StripLeft(text: string): (r: string)
    ensures |r| <= |text|
  {
    if text != "" && IsSpace(text[0]) then StripLeft(text[1..]) else text
  }

  function StripRight(text: string): (r: string)
    ensures |r| <= |text|
  {
    if text != "" && IsSpace(text[|text| - 1]) then StripRight(text[..|text| - 1]) else text
  }

  function Strip(text: string): (r: string)
    ensures |r| <= |text|
  {
    StripRight(StripLeft(text))
  }

  /** Neither end of the text is a space, so stripping leaves it alone. */
  predicate Tight(text: string) {
    text != "" && !IsSpace(text[0]) && !IsSpace(text[|text| - 1])
  }

  predicate AllSpace(text: string) {
    forall c <- text :: IsSpace(c)
  }

  lemma {:induction false} StrippedLeft(text: string)
    ensures exists before: string :: text == before + StripLeft(text) && AllSpace(before)
    ensures StripLeft(text) != "" ==> !IsSpace(StripLeft(text)[0])
  {
    if text != "" && IsSpace(text[0]) {
      StrippedLeft(text[1..]);
      var before: string :| text[1..] == before + StripLeft(text[1..]) && AllSpace(before);
      assert text == ([text[0]] + before) + StripLeft(text);
    } else {
      assert text == "" + StripLeft(text);
    }
  }

  lemma {:induction false} StrippedRight(text: string)
    ensures exists after: string :: text == StripRight(text) + after && AllSpace(after)
    ensures StripRight(text) != "" ==> StripRight(text)[0] == text[0] && !IsSpace(StripRight(text)[|StripRight(text)| - 1])
  {
    if text != "" && IsSpace(text[|text| - 1]) {
      var init := text[..|text| - 1];
      StrippedRight(init);
      var after: string :| init == StripRight(init) + after && AllSpace(after);
      assert text == StripRight(text) + (after + [text[|text| - 1]]);
    } else {
      assert text == StripRight(text) + "";
    }
  }

  /** What `str.strip` takes away are spaces at either end, and it takes all of them. */
  lemma StripExactly(text: string)
    ensures exists before: string, after: string :: text == before + Strip(text) + after && AllSpace(before) && AllSpace(after)
    ensures Strip(text) == "" || Tight(Strip(text))
  {
    var left := StripLeft(text);
    StrippedLeft(text);
    StrippedRight(left);
    var before: string :| text == before + left && AllSpace(before);
    var after: string :| left == Strip(text) + after && AllSpace(after);
    assert text == before + Strip(text) + after;
  }
}
