/**
 * Removal of the assistant's hidden reasoning from its reply, the effect of
 * `text.replace(/<Thinking>.*?<\/Thinking>/gs, "")`: scanning left to right, an
 * opening `<Thinking>` and the first `</Thinking>` after it are deleted together
 * with everything between them (line breaks included); scanning resumes after the
 * closing tag, and text produced by a deletion is not scanned again. The tags are
 * matched exactly, with case. An opening tag with no closing tag after it is kept.
 */
module Thinking {
  import opened Js

  const Open: string := "<Thinking>"
  const Close: string := "</Thinking>"

  /** `t` occurs in `s` starting at index `i`. */
  predicate OccursAt(s: string, t: string, i: int) {
    0 <= i && i + |t| <= |s| && s[i..i + |t|] == t
  }

  /** The first index at or after `from` where `t` occurs in `s`. */
  function FindFrom(s: string, t: string, from: nat): (r: Option<nat>)
    ensures r.Some? ==> from <= r.value && OccursAt(s, t, r.value)
    ensures r.Some? ==> forall p | from <= p < r.value :: !OccursAt(s, t, p)
    ensures r.None? ==> forall p | from <= p :: !OccursAt(s, t, p)
    decreases |s| - from
  {
    if from + |t| > |s| then None
    else if s[from..from + |t|] == t then Some(from)
    else FindFrom(s, t, from + 1)
  }

  /**
   * The reference meaning of the replacement: at the front of `s`, either a complete
   * opening tag ... first closing tag span is dropped, or one character is kept.
   */
  function Strip(s: string): string
    decreases |s|
  {
    if s == [] then []
    else if OccursAt(s, Open, 0) && FindFrom(s, Close, |Open|).Some? then
      Strip(s[FindFrom(s, Close, |Open|).value + |Close|..])
    else [s[0]] + Strip(s[1..])
  }

  /** A complete pair: an opening tag with a closing tag starting after its end. */
  ghost predicate HasPair(s: string) {
    exists i, j | 0 <= i && i + |Open| <= j :: OccursAt(s, Open, i) && OccursAt(s, Close, j)
  }

  /** Occurrences in a suffix are occurrences in the whole string, shifted. */
  lemma OccursShift(s: string, t: string, i: nat, k: nat)
    requires i <= |s|
    ensures OccursAt(s[i..], t, k) == OccursAt(s, t, i + k)
  {
    if k + |t| <= |s| - i {
      assert s[i..][k..k + |t|] == s[i + k..i + k + |t|];
    }
  }

  /** Searching a suffix finds the same occurrence as searching the whole string. */
  lemma {:induction false} FindFromShift(s: string, t: string, i: nat, k: nat)
    requires i <= |s|
    ensures FindFrom(s[i..], t, k).Some? == FindFrom(s, t, i + k).Some?
    ensures FindFrom(s[i..], t, k).Some? ==> FindFrom(s[i..], t, k).value + i == FindFrom(s, t, i + k).value
    decreases |s| - i - k
  {
    if k + |t| <= |s| - i {
      assert s[i..][k..k + |t|] == s[i + k..i + k + |t|];
      FindFromShift(s, t, i, k + 1);
    }
  }

  /** A scan step at index `i` that finds a complete span jumps past its closing tag. */
  lemma StripSkipsSpan(s: string, i: nat, j: nat)
    requires i < |s| && OccursAt(s, Open, i) && FindFrom(s, Close, i + |Open|) == Some(j)
    ensures j + |Close| <= |s| && Strip(s[i..]) == Strip(s[j + |Close|..])
  {
    OccursShift(s, Open, i, 0);
    FindFromShift(s, Close, i, |Open|);
    var rest := s[i..];
    assert rest[j - i + |Close|..] == s[j + |Close|..];
  }

  /** A scan step at index `i` that finds no complete span keeps the character there. */
  lemma StripKeepsChar(s: string, i: nat)
    requires i < |s| && !(OccursAt(s, Open, i) && FindFrom(s, Close, i + |Open|).Some?)
    ensures Strip(s[i..]) == [s[i]] + Strip(s[i + 1..])
  {
    OccursShift(s, Open, i, 0);
    FindFromShift(s, Close, i, |Open|);
    assert s[i..][1..] == s[i + 1..];
  }

  /** Searches `s` for the first closing tag starting at or after `from`. */
  method FindClose(s: string, from: nat) returns (c: Option<nat>)
    ensures c == FindFrom(s, Close, from)
  {
    var j := from;
    while j + |Close| <= |s| && s[j..j + |Close|] != Close
      invariant from <= j
      invariant forall p | from <= p < j :: !OccursAt(s, Close, p)
      decreases |s| - j
    {
      j := j + 1;
    }
    if j + |Close| <= |s| {
      c := Some(j);
      assert OccursAt(s, Close, j);
    } else {
      c := None;
    }
    ghost var v := FindFrom(s, Close, from);
    assert c.Some? ==> v == c;
  }

  /**
   * The scanner: walks `s` once from left to right, copying characters, and on an
   * opening tag searches for the first closing tag after it; if one is found the whole
   * span is skipped, otherwise the `<` is copied like any other character.
   */
  method StripThinking(s: string) returns (r: string)
    ensures r == Strip(s)
  {
    r := "";
    var i := 0;
    assert s[i..] == s;
    assert r + Strip(s[i..]) == Strip(s);
    while i < |s|
      invariant 0 <= i <= |s|
      invariant r + Strip(s[i..]) == Strip(s)
      decreases |s| - i
    {
      var atOpen := i + |Open| <= |s| && s[i..i + |Open|] == Open;
      assert atOpen == OccursAt(s, Open, i);
      var close: Option<nat> := None;
      if atOpen {
        close := FindClose(s, i + |Open|);
      }
      assert close.Some? ==> atOpen && close == FindFrom(s, Close, i + |Open|);
      if close.Some? {
        var next := close.value + |Close|;
        StripSkipsSpan(s, i, close.value);
        ghost var skipped := Strip(s[next..]);
        assert Strip(s[i..]) == skipped;
        assert r + skipped == Strip(s);
        i := next;
      } else {
        StripKeepsChar(s, i);
        ghost var tail := Strip(s[i + 1..]);
        assert (r + [s[i]]) + tail == r + ([s[i]] + tail);
        assert (r + [s[i]]) + Strip(s[i + 1..]) == Strip(s);
        r := r + [s[i]];
        i := i + 1;
      }
    }
  }

  /** The output is never longer than the input. */
  lemma {:induction false} StripNoLonger(s: string)
    ensures |Strip(s)| <= |s|
    decreases |s|
  {
    if s != [] {
      if OccursAt(s, Open, 0) && FindFrom(s, Close, |Open|).Some? {
        StripNoLonger(s[FindFrom(s, Close, |Open|).value + |Close|..]);
      } else {
        StripNoLonger(s[1..]);
      }
    }
  }

  /** When a complete pair is present, something is removed. */
  lemma {:induction false} StripShrinksOnPair(s: string)
    requires HasPair(s)
    ensures |Strip(s)| < |s|
    decreases |s|
  {
    var i, j :| 0 <= i && i + |Open| <= j && OccursAt(s, Open, i) && OccursAt(s, Close, j);
    if OccursAt(s, Open, 0) && FindFrom(s, Close, |Open|).Some? {
      StripNoLonger(s[FindFrom(s, Close, |Open|).value + |Close|..]);
    } else {
      assert i != 0;
      OccursShift(s, Open, 1, i - 1);
      OccursShift(s, Close, 1, j - 1);
      assert HasPair(s[1..]);
      StripShrinksOnPair(s[1..]);
    }
  }

  /** Text without a complete pair comes back unchanged. */
  lemma {:induction false} StripKeepsUnpaired(s: string)
    requires !HasPair(s)
    ensures Strip(s) == s
    decreases |s|
  {
    if s != [] {
      var v := FindFrom(s, Close, |Open|);
      assert !(OccursAt(s, Open, 0) && v.Some?);
      if HasPair(s[1..]) {
        var i, j :| 0 <= i && i + |Open| <= j && OccursAt(s[1..], Open, i) && OccursAt(s[1..], Close, j);
        OccursShift(s, Open, 1, i);
        OccursShift(s, Close, 1, j);
        assert false;
      }
      StripKeepsUnpaired(s[1..]);
      assert s == [s[0]] + s[1..];
    }
  }

  /** The replacement leaves the text unchanged exactly when it holds no complete pair. */
  lemma StripUnchangedIffUnpaired(s: string)
    ensures Strip(s) == s <==> !HasPair(s)
  {
    if HasPair(s) {
      StripShrinksOnPair(s);
    } else {
      StripKeepsUnpaired(s);
    }
  }

  /** Text before the first opening tag is kept verbatim. */
  lemma {:induction false} StripKeepsPlainPrefix(a: string, c: string)
    requires forall p | 0 <= p < |a| :: !OccursAt(a + c, Open, p)
    ensures Strip(a + c) == a + Strip(c)
    decreases |a|
  {
    if a != [] {
      var s := a + c;
      assert !OccursAt(s, Open, 0);
      assert s[1..] == a[1..] + c;
      forall p | 0 <= p < |a[1..]|
        ensures !OccursAt(a[1..] + c, Open, p)
      {
        OccursShift(s, Open, 1, p);
      }
      StripKeepsPlainPrefix(a[1..], c);
      assert a == [a[0]] + a[1..];
    } else {
      assert a + c == c;
    }
  }

  /** A span from an opening tag to the first closing tag after it is dropped whole. */
  lemma StripDropsSpan(b: string, c: string)
    requires forall p | 0 <= p < |b| :: !OccursAt(b + Close, Close, p)
    ensures Strip(Open + b + Close + c) == Strip(c)
  {
    var s := Open + b + Close + c;
    assert s[..|Open|] == Open;
    assert OccursAt(s, Open, 0);
    assert s[|Open| + |b|..|Open| + |b| + |Close|] == Close;
    forall p | |Open| <= p < |Open| + |b|
      ensures !OccursAt(s, Close, p)
    {
      assert !OccursAt(b + Close, Close, p - |Open|);
      assert s[p..p + |Close|] == (b + Close)[p - |Open|..p - |Open| + |Close|];
    }
    assert OccursAt(s, Close, |Open| + |b|);
    var v := FindFrom(s, Close, |Open|);
    assert v.Some?;
    assert !(v.value < |Open| + |b|) && !(v.value > |Open| + |b|);
    assert s[|Open| + |b| + |Close|..] == c;
  }

  /**
   * Each removed span goes, text around it stays: with no opening tag starting in `a`
   * and no closing tag starting in `b`, `a<Thinking>b</Thinking>c` becomes `a` followed
   * by the scrub of `c`.
   */
  lemma StripSpan(a: string, b: string, c: string)
    requires forall p | 0 <= p < |a| :: !OccursAt(a + Open + b + Close + c, Open, p)
    requires forall p | 0 <= p < |b| :: !OccursAt(b + Close, Close, p)
    ensures Strip(a + Open + b + Close + c) == a + Strip(c)
  {
    assert a + Open + b + Close + c == a + (Open + b + Close + c);
    StripKeepsPlainPrefix(a, Open + b + Close + c);
    StripDropsSpan(b, c);
  }

  // ---------------------------------------------------------------------------
  // worked cases

  /** An opening tag starts with `<T`. */
  lemma OpenStart(s: string, i: int)
    requires OccursAt(s, Open, i)
    ensures s[i] == '<' && s[i + 1] == 'T'
  {
    assert s[i..i + |Open|][0] == s[i];
    assert s[i..i + |Open|][1] == s[i + 1];
  }

  /** Text in which `<` is never followed by `T` holds no complete pair. */
  lemma NoPairWithoutOpen(s: string)
    requires forall k | 0 <= k < |s| - 1 :: !(s[k] == '<' && s[k + 1] == 'T')
    ensures !HasPair(s)
  {
    if HasPair(s) {
      var i, j :| 0 <= i && i + |Open| <= j && OccursAt(s, Open, i) && OccursAt(s, Close, j);
      OpenStart(s, i);
      assert false;
    }
  }

  /** The tags are matched with case: lower-case tags are left alone. */
  lemma LowerCaseTagsKept(s: string)
    requires s == "<thinking>x</thinking>"
    ensures Strip(s) == s
  {
    assert forall k | 0 <= k < |s| :: s[k] != 'T';
    NoPairWithoutOpen(s);
    StripKeepsUnpaired(s);
  }

  /** A span may cross line breaks. */
  lemma SpanCrossesLines(s: string)
    requires s == "a" + Open + "\n\n" + Close + "b"
    ensures Strip(s) == "ab"
  {
    var a, b, c := "a", "\n\n", "b";
    assert s == a + Open + b + Close + c;
    assert !OccursAt(s, Open, 0) by {
      assert s[0..|Open|][0] == s[0];
    }
    forall p | 0 <= p < |b| ensures !OccursAt(b + Close, Close, p) {
      assert (b + Close)[p..p + |Close|][0] == '\n';
    }
    StripSpan(a, b, c);
    StripKeepsUnpaired(c);
  }

  /**
   * A single pass: the text left around a removed span is not scanned again, so the
   * output can itself hold a complete pair.
   */
  lemma SinglePass(s: string)
    requires s == "<Thin" + Open + "x" + Close + "king>y" + Close
    ensures Strip(s) == Open + "y" + Close
    ensures HasPair(Strip(s)) && Strip(Strip(s)) != Strip(s)
  {
    var a, b, c := "<Thin", "x", "king>y" + Close;
    assert s == a + Open + b + Close + c;
    forall p | 0 <= p < |a| ensures !OccursAt(s, Open, p) {
      if p == 0 {
        assert s[5] == '<';
        assert s[p..p + |Open|][5] == s[5];
      } else {
        assert s[p..p + |Open|][0] == s[p];
      }
    }
    forall p | 0 <= p < |b| ensures !OccursAt(b + Close, Close, p) {
      assert (b + Close)[0] == 'x';
    }
    StripSpan(a, b, c);
    forall k | 0 <= k < |c| - 1 ensures !(c[k] == '<' && c[k + 1] == 'T') {
    }
    NoPairWithoutOpen(c);
    StripKeepsUnpaired(c);
    var out := Open + "y" + Close;
    assert a + c == out;
    assert OccursAt(out, Open, 0) && OccursAt(out, Close, |Open| + 1);
    StripUnchangedIffUnpaired(out);
  }
}
