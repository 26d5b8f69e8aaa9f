/**
 * The note editor's two selection-editing helpers, `surroundSelection`
 * (the bold/italic buttons) and `insertAtCursor`, taken as pure transforms
 * of the textarea's value and selection range.  Offsets count characters
 * of the value.
 */
module Editor {

  /** A textarea's `value` with its `selectionStart` and `selectionEnd`. */
  datatype TextArea = TextArea(value: string, start: nat, end: nat)

  /** The browser keeps `0 <= selectionStart <= selectionEnd <= value.length`. */
  predicate Valid(t: TextArea) {
    t.start <= t.end <= |t.value|
  }

  /** The selected text. */
  function Selected(t: TextArea): string
    requires Valid(t)
  {
    t.value[t.start..t.end]
  }

  /**
   * `surroundSelection(before, after)`: `before` goes in front of the
   * selection and `after` behind it, and the same text stays selected.
   */
  function SurroundSelection(t: TextArea, before: string, after: string): (r: TextArea)
    requires Valid(t)
    ensures Valid(r)
    ensures Selected(r) == Selected(t)
    ensures r.value[..r.start] == t.value[..t.start] + before
    ensures r.value[r.end..] == after + t.value[t.end..]
  {
    var v, s, e := t.value, t.start, t.end;
    var out := v[..s] + before + v[s..e] + after + v[e..];
    assert out[..s + |before|] == v[..s] + before;
    assert out[s + |before|..e + |before|] == v[s..e];
    assert out[e + |before|..] == after + v[e..];
    TextArea(out, s + |before|, e + |before|)
  }

  /**
   * `insertAtCursor(text)`: `text` replaces the selection and the caret
   * ends up right behind it.
   */
  function InsertAtCursor(t: TextArea, text: string): (r: TextArea)
    requires Valid(t)
    ensures Valid(r) && r.start == r.end
    ensures r.value[..r.start] == t.value[..t.start] + text
    ensures r.value[r.end..] == t.value[t.end..]
  {
    var v, s, e := t.value, t.start, t.end;
    var out := v[..s] + text + v[e..];
    assert out[..s + |text|] == v[..s] + text;
    assert out[s + |text|..] == v[e..];
    TextArea(out, s + |text|, s + |text|)
  }

  /** Takes `surroundSelection`'s markers off again, given their lengths. */
  function Unsurround(t: TextArea, nBefore: nat, nAfter: nat): TextArea
    requires nBefore <= t.start <= t.end && t.end + nAfter <= |t.value|
  {
    TextArea(t.value[..t.start - nBefore] + t.value[t.start..t.end] + t.value[t.end + nAfter..],
             t.start - nBefore, t.end - nBefore)
  }

  /** Removing the two markers restores the value and the selection exactly. */
  lemma UnsurroundSurround(t: TextArea, before: string, after: string)
    requires Valid(t)
    ensures var r := SurroundSelection(t, before, after);
      |before| <= r.start && r.end + |after| <= |r.value| &&
      Unsurround(r, |before|, |after|) == t
  {
    var r := SurroundSelection(t, before, after);
    var v := t.value;
    assert r.value[..r.start - |before|] == v[..t.start] by {
      assert r.value[..r.start - |before|] == r.value[..r.start][..t.start];
    }
    assert r.value[r.end + |after|..] == v[t.end..] by {
      assert r.value[r.end + |after|..] == r.value[r.end..][|after|..];
    }
    assert v == v[..t.start] + v[t.start..t.end] + v[t.end..];
  }

  /** With nothing selected, surrounding with an empty `after` is inserting `before`. */
  lemma SurroundCollapsed(t: TextArea, before: string)
    requires Valid(t) && t.start == t.end
    ensures SurroundSelection(t, before, "") == InsertAtCursor(t, before)
  {
    var v, s := t.value, t.start;
    assert v[s..s] + "" == [];
    assert v[..s] + before + v[s..s] + "" + v[s..] == v[..s] + before + v[s..];
  }

  /** Inserting replaces the selection: it is deleting it and inserting at the caret. */
  lemma InsertReplacesSelection(t: TextArea, text: string)
    requires Valid(t)
    ensures InsertAtCursor(t, text) == InsertAtCursor(InsertAtCursor(t, ""), text)
  {
    var d := InsertAtCursor(t, "");
    var r1, r2 := InsertAtCursor(t, text), InsertAtCursor(d, text);
    assert d.value[..d.start] == t.value[..t.start];
    assert d.value[d.end..] == t.value[t.end..];
    assert r1.value == r1.value[..r1.start] + r1.value[r1.end..];
    assert r2.value == r2.value[..r2.start] + r2.value[r2.end..];
  }
}
