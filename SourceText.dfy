/**
 * Roslyn's `SourceText.WithChanges` as the replace feature uses it: a batch
 * of text changes, given in order and not overlapping, all measured against
 * the same original text and applied in one edit.
 */
module SourceText {

  /** `TextChange(span, newText)` with the span `[start, start + length)`. */
  datatype TextChange = TextChange(start: nat, length: nat, newText: string) {
    function End(): nat { start + length }
  }

  /** Every span lies inside `text`, and each change ends at or before the next one starts. */
  ghost predicate Ordered(text: string, changes: seq<TextChange>) {
    && (forall i :: 0 <= i < |changes| ==> changes[i].End() <= |text|)
    && (forall i, j :: 0 <= i < j < |changes| ==> changes[i].End() <= changes[j].start)
  }

  /**
   * `Ordered`, stated the way `WithChanges` takes the changes apart: the last
   * span lies inside the text and the other changes are well formed on the
   * text before it.
   */
  ghost predicate WellFormed(text: string, changes: seq<TextChange>)
    decreases |changes|
  {
    changes == [] ||
    (changes[|changes| - 1].End() <= |text|
     && WellFormed(text[..changes[|changes| - 1].start], changes[..|changes| - 1]))
  }

  /** The changes are well formed exactly when they are ordered and inside the text. */
  lemma {:induction false} WellFormedIffOrdered(text: string, changes: seq<TextChange>)
    ensures WellFormed(text, changes) <==> Ordered(text, changes)
    decreases |changes|
  {
    if changes != [] {
      var n := |changes|;
      var last := changes[n - 1];
      var init := changes[..n - 1];
      if last.End() <= |text| {
        WellFormedIffOrdered(text[..last.start], init);
        if Ordered(text, changes) {
          OrderedInit(text, changes);
        }
        if Ordered(text[..last.start], init) {
          OrderedExtend(text, changes);
        }
      }
    }
  }

  /** Dropping the last of ordered changes leaves ordered changes on the text before its span. */
  lemma OrderedInit(text: string, changes: seq<TextChange>)
    requires changes != [] && Ordered(text, changes)
    ensures Ordered(text[..changes[|changes| - 1].start], changes[..|changes| - 1])
  {
    var n := |changes|;
    var init := changes[..n - 1];
    forall i | 0 <= i < |init| ensures init[i].End() <= changes[n - 1].start {
      assert init[i] == changes[i];
    }
    forall i, j | 0 <= i < j < |init| ensures init[i].End() <= init[j].start {
      assert init[i] == changes[i] && init[j] == changes[j];
    }
  }

  /** A last change after ordered changes, inside the text, keeps them ordered. */
  lemma OrderedExtend(text: string, changes: seq<TextChange>)
    requires changes != [] && changes[|changes| - 1].End() <= |text|
    requires Ordered(text[..changes[|changes| - 1].start], changes[..|changes| - 1])
    ensures Ordered(text, changes)
  {
    var n := |changes|;
    var init := changes[..n - 1];
    forall i | 0 <= i < n ensures changes[i].End() <= |text| {
      if i < n - 1 {
        assert changes[i] == init[i];
      }
    }
    forall i, j | 0 <= i < j < n ensures changes[i].End() <= changes[j].start {
      assert changes[i] == init[i];
      if j < n - 1 {
        assert changes[j] == init[j];
      }
    }
  }

  /** How much longer the text gets from the changes: inserted minus removed characters. */
  function Delta(changes: seq<TextChange>): int {
    if changes == [] then 0
    else Delta(changes[..|changes| - 1]) + |changes[|changes| - 1].newText| - changes[|changes| - 1].length
  }

  /**
   * `text.WithChanges(changes)`. The last change replaces its span of the
   * original text; the earlier ones are applied, the same way, to the part of
   * the original text before it, which the last change does not touch.
   */
  function WithChanges(text: string, changes: seq<TextChange>): (r: string)
    requires WellFormed(text, changes)
    ensures |r| == |text| + Delta(changes)
    decreases |changes|
  {
    if changes == [] then text
    else
      var last := changes[|changes| - 1];
      WithChanges(text[..last.start], changes[..|changes| - 1]) + last.newText + text[last.End()..]
  }

  /** One change replaces `text[s..s+len]` with its new text. */
  function Replace(text: string, c: TextChange): (r: string)
    requires c.End() <= |text|
    ensures |r| == |text| - c.length + |c.newText|
  {
    text[..c.start] + c.newText + text[c.End()..]
  }

  /** A single change: the text before the span, then the new text, then the text after the span. */
  lemma WithOneChange(text: string, c: TextChange)
    requires c.End() <= |text|
    ensures WellFormed(text, [c])
    ensures WithChanges(text, [c]) == Replace(text, c)
  {
    assert [c][..0] == [];
  }

  /** Cutting a prefix first does not change the slices inside it. */
  lemma SlicesOfPrefix(text: string, n: nat, a: nat, b: nat)
    requires a <= b <= n <= |text|
    ensures text[..n][..a] == text[..a] && text[..n][b..] == text[b..n]
  {
  }

  /** Two changes: each replaces its own span of the original text, the text between them is kept. */
  lemma WithTwoChanges(text: string, c1: TextChange, c2: TextChange)
    requires c1.End() <= c2.start && c2.End() <= |text|
    ensures WellFormed(text, [c1, c2])
    ensures WithChanges(text, [c1, c2]) == text[..c1.start] + c1.newText + text[c1.End()..c2.start] + c2.newText + text[c2.End()..]
  {
    var front := text[..c2.start];
    assert [c1, c2][..1] == [c1];
    WithOneChange(front, c1);
    SlicesOfPrefix(text, c2.start, c1.start, c1.End());
  }

  /** No changes, no difference. */
  lemma WithNoChanges(text: string)
    ensures WithChanges(text, []) == text
  {
  }

  /** Well-formedness only looks at the text up to the last span, so it survives extending the text. */
  lemma WellFormedOnExtension(a: string, b: string, changes: seq<TextChange>)
    requires WellFormed(a, changes) && |a| <= |b| && b[..|a|] == a
    ensures WellFormed(b, changes)
  {
    if changes != [] {
      var s := changes[|changes| - 1].start;
      assert b[..s] == a[..s];
    }
  }

  /** Concatenation is associative. */
  lemma AppendAssoc(a: string, b: string, c: string)
    ensures a + b + c == a + (b + c)
  {
  }

  /** Text appended after the last span is carried through the edit unchanged. */
  lemma AppendUntouched(front: string, back: string, changes: seq<TextChange>)
    requires WellFormed(front, changes)
    ensures WellFormed(front + back, changes)
    ensures WithChanges(front + back, changes) == WithChanges(front, changes) + back
  {
    WellFormedOnExtension(front, front + back, changes);
    if changes != [] {
      var last := changes[|changes| - 1];
      var init := changes[..|changes| - 1];
      var text := front + back;
      assert text[..last.start] == front[..last.start];
      assert text[last.End()..] == front[last.End()..] + back;
      var head := WithChanges(front[..last.start], init) + last.newText;
      assert WithChanges(text, changes) == head + (front[last.End()..] + back);
      AppendAssoc(head, front[last.End()..], back);
    }
  }

  /** In `a + b + c`, the slice where `b` was placed is `b`. */
  lemma SliceOfMiddle(a: string, b: string, c: string)
    ensures (a + b + c)[|a|..|a| + |b|] == b
  {
  }

  /** In `a + b + c`, a slice inside `a` is a slice of `a`. */
  lemma SliceOfFirst(a: string, b: string, c: string, i: nat, j: nat)
    requires i <= j <= |a|
    ensures (a + b + c)[i..j] == a[i..j]
  {
  }

  /**
   * The new text of change `k` lands at its original start shifted by what
   * the changes before it inserted or removed: each span is resolved against
   * the original text.
   */
  lemma {:induction false} ChangeLandsAt(text: string, changes: seq<TextChange>, k: nat)
    requires WellFormed(text, changes) && k < |changes|
    ensures var at := changes[k].start + Delta(changes[..k]);
            var r := WithChanges(text, changes);
            0 <= at && at + |changes[k].newText| <= |r| && r[at..at + |changes[k].newText|] == changes[k].newText
    decreases |changes|
  {
    var last := changes[|changes| - 1];
    var init := changes[..|changes| - 1];
    var head := WithChanges(text[..last.start], init);
    var rest := text[last.End()..];
    var t := changes[k].newText;
    if k == |changes| - 1 {
      assert changes[..k] == init;
      SliceOfMiddle(head, last.newText, rest);
    } else {
      assert changes[..k] == init[..k] && init[k] == changes[k];
      ChangeLandsAt(text[..last.start], init, k);
      var at := changes[k].start + Delta(changes[..k]);
      SliceOfFirst(head, last.newText, rest, at, at + |t|);
    }
  }

  /** In `a + b + c`, a position inside `a` holds what `a` holds there. */
  lemma IndexOfFirst(a: string, b: string, c: string, i: nat)
    requires i < |a|
    ensures (a + b + c)[i] == a[i]
  {
  }

  /** In `a + b + c`, a position inside `c` holds what `c` holds there. */
  lemma IndexOfLast(a: string, b: string, c: string, i: nat)
    requires |a| + |b| <= i < |a| + |b| + |c|
    ensures (a + b + c)[i] == c[i - |a| - |b|]
  {
  }

  /**
   * A character of the original text that no change covers survives, moved
   * by what the changes before it inserted or removed; `m` is the number of
   * changes that end at or before it.
   */
  lemma {:induction false} UntouchedTextPreserved(text: string, changes: seq<TextChange>, p: nat, m: nat)
    requires WellFormed(text, changes) && p < |text| && m <= |changes|
    requires forall i :: 0 <= i < m ==> changes[i].End() <= p
    requires forall i :: m <= i < |changes| ==> p < changes[i].start
    ensures var at := p + Delta(changes[..m]);
            var r := WithChanges(text, changes);
            0 <= at < |r| && r[at] == text[p]
    decreases |changes|
  {
    if changes == [] {
      assert changes[..m] == [];
    } else {
      var last := changes[|changes| - 1];
      var init := changes[..|changes| - 1];
      var head := WithChanges(text[..last.start], init);
      var rest := text[last.End()..];
      if m == |changes| {
        assert changes[..m] == changes;
        assert last.End() <= p;
        assert Delta(changes) == Delta(init) + |last.newText| - last.length;
        assert |head| == last.start + Delta(init);
        IndexOfLast(head, last.newText, rest, p + Delta(changes));
        assert rest[p - last.End()] == text[p];
      } else {
        assert changes[..m] == init[..m];
        assert p < last.start;
        assert forall i :: 0 <= i < m ==> init[i] == changes[i];
        UntouchedTextPreserved(text[..last.start], init, p, m);
        IndexOfFirst(head, last.newText, rest, p + Delta(changes[..m]));
        assert text[..last.start][p] == text[p];
      }
    }
  }

  /** One change leaves the text before its span alone and puts its new text right after it. */
  lemma ReplaceSplit(text: string, c: TextChange)
    requires c.End() <= |text|
    ensures Replace(text, c)[..c.start] == text[..c.start]
    ensures Replace(text, c)[c.start..] == c.newText + text[c.End()..]
  {
  }

  /** Replacing the last span first keeps the earlier changes well formed on the new text. */
  lemma ReplaceLastKeepsInit(text: string, changes: seq<TextChange>)
    requires WellFormed(text, changes) && changes != []
    ensures WellFormed(Replace(text, changes[|changes| - 1]), changes[..|changes| - 1])
  {
    var last := changes[|changes| - 1];
    ReplaceSplit(text, last);
    WellFormedOnExtension(text[..last.start], Replace(text, last), changes[..|changes| - 1]);
  }

  /** Applying the changes one at a time, last change first, against a text that changes as it goes. */
  function ApplyBackToFront(text: string, changes: seq<TextChange>): string
    requires WellFormed(text, changes)
    decreases |changes|
  {
    if changes == [] then text
    else
      ReplaceLastKeepsInit(text, changes);
      ApplyBackToFront(Replace(text, changes[|changes| - 1]), changes[..|changes| - 1])
  }

  /**
   * The one-batch edit is the same as replacing the spans one at a time from
   * the last to the first: no replacement moves a span still to be replaced.
   */
  lemma {:induction false} WithChangesIsBackToFront(text: string, changes: seq<TextChange>)
    requires WellFormed(text, changes)
    ensures WithChanges(text, changes) == ApplyBackToFront(text, changes)
    decreases |changes|
  {
    if changes != [] {
      var last := changes[|changes| - 1];
      var init := changes[..|changes| - 1];
      var next := Replace(text, last);
      ReplaceLastKeepsInit(text, changes);
      var head := WithChanges(text[..last.start], init);
      assert WithChanges(text, changes) == head + (last.newText + text[last.End()..]);
      assert WithChanges(next, init) == head + (last.newText + text[last.End()..]) by {
        AppendAssoc(text[..last.start], last.newText, text[last.End()..]);
        AppendUntouched(text[..last.start], last.newText + text[last.End()..], init);
      }
      WithChangesIsBackToFront(next, init);
    }
  }

  /**
   * Replacing front to back against the changing text is not the same:
   * after the first replacement grows the text, the second span points at
   * the wrong characters.
   */
  lemma FrontToBackDiffers()
    ensures var c1 := TextChange(0, 1, "XY");
            var c2 := TextChange(2, 1, "Z");
            WellFormed("abcd", [c1, c2])
            && WithChanges("abcd", [c1, c2]) == "XYbZd"
            && Replace(Replace("abcd", c1), c2) == "XYZcd"
  {
    var c1 := TextChange(0, 1, "XY");
    var c2 := TextChange(2, 1, "Z");
    WithTwoChanges("abcd", c1, c2);
  }
}
