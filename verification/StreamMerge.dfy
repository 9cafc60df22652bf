/** Collecting a streamed chat answer: each fragment is either the whole text so far, extended
    (cumulative servers), or the next piece (delta servers), and the merge has to guess which.
 */
module StreamMerge {

  function Concat(parts: seq<string>): string {
    if parts == [] then "" else Concat(parts[..|parts| - 1]) + parts[|parts| - 1]
  }

  predicate EndsWith(text: string, suffix: string) {
    |suffix| <= |text| && text[|text| - |suffix|..] == suffix
  }

  /** What one fragment makes of the text so far. */
  function Merge(current: string, fragment: string): string {
    if EndsWith(current, fragment) then current
    else if current <= fragment then fragment
    else current + fragment
  }

  function Collect(fragments: seq<string>): string {
    if fragments == [] then "" else Merge(Collect(fragments[..|fragments| - 1]), fragments[|fragments| - 1])
  }

  // ---------------------------------------------------------------- the object

  /** What one line of the stream turns out to be. */
  datatype Event = Fragment(text: string) | Other | Done

  /** The texts of the fragments before the end of the stream; events with no text are passed over. */
  function Fragments(events: seq<Event>): seq<string> {
    if events == [] || events[0].Done? then []
    else (if events[0].Fragment? && events[0].text != "" then [events[0].text] else []) + Fragments(events[1..])
  }

  ghost predicate NotEnded(events: seq<Event>) { forall i :: 0 <= i < |events| ==> !events[i].Done? }

  /** A text that is not empty is a fragment; anything else is none. */
  lemma SingleFragment(e: Event)
    ensures Fragments([e]) == if e.Fragment? && e.text != "" then [e.text] else []
  {
    assert [e][1..] == [];
  }

  lemma FragmentsCons(events: seq<Event>)
    requires events != [] && !events[0].Done?
    ensures Fragments(events) == Fragments([events[0]]) + Fragments(events[1..])
  {
    SingleFragment(events[0]);
  }

  lemma NoEvents()
    ensures Fragments([]) == []
  {
  }

  /** Stretches that do not end the stream add up. */
  lemma {:induction false} FragmentsConcat(a: seq<Event>, b: seq<Event>)
    requires NotEnded(a)
    ensures Fragments(a + b) == Fragments(a) + Fragments(b)
  {
    hide Fragments;
    if a == [] {
      NoEvents();
      assert a + b == b;
    } else {
      FragmentsConcat(a[1..], b);
      FragmentsCons(a);
      FragmentsCons(a + b);
      assert (a + b)[1..] == a[1..] + b;
      assert Fragments([a[0]]) + (Fragments(a[1..]) + Fragments(b)) == Fragments(a) + Fragments(b);
    }
  }

  /** The first end of the stream, wherever it stands, cuts off whatever follows. */
  lemma EndCutsOff(a: seq<Event>, rest: seq<Event>)
    requires NotEnded(a)
    ensures Fragments(a + ([Done] + rest)) == Fragments(a)
  {
    FragmentsConcat(a, [Done] + rest);
    assert Fragments([Done] + rest) == [];
    hide Fragments;
    assert Fragments(a) + [] == Fragments(a);
  }

  class StreamedAnswer {
    var parts: seq<string>

    constructor ()
      ensures parts == []
    {
      parts := [];
    }

    /** `_merge_streamed_answer`, rewriting the list of parts in place. */
    method Add(answer: string)
      modifies this
      ensures Concat(parts) == Merge(Concat(old(parts)), answer)
    {
      var current := Concat(parts);
      if answer == "" || answer == current || EndsWith(current, answer) { return; }
      if current <= answer {
        parts := [answer];
        assert parts[..0] == [];
      } else {
        assert (parts + [answer])[..|parts|] == parts;
        parts := parts + [answer];
      }
    }

    /** The fold of `_collect_streaming_chat_completion` over a stream. */
    method Run(events: seq<Event>)
      requires parts == []
      modifies this
      ensures Concat(parts) == Collect(Fragments(events))
    {
      hide Merge, EndsWith, Concat, Collect, Fragments;
      var i := 0;
      ghost var done: seq<string> := [];
      Nothing();
      assert events[0..] == events && [] + Fragments(events) == Fragments(events);
      while i < |events| && !events[i].Done?
        invariant i <= |events|
        invariant Concat(parts) == Collect(done) && Fragments(events) == done + Fragments(events[i..])
      {
        assert events[i..][0] == events[i] && events[i..][1..] == events[i + 1..];
        FragmentsCons(events[i..]);
        SingleFragment(events[i]);
        if events[i].Fragment? && events[i].text != "" {
          Add(events[i].text);
          CollectSnoc(done, events[i].text);
          assert done + ([events[i].text] + Fragments(events[i + 1..]))
              == done + [events[i].text] + Fragments(events[i + 1..]);
          done := done + [events[i].text];
        } else {
          assert [] + Fragments(events[i + 1..]) == Fragments(events[i + 1..]);
        }
        i := i + 1;
      }
      Ended(events[i..]);
      assert done + [] == done;
    }
  }

  lemma Nothing()
    ensures Concat([]) == Collect([]) == ""
  {
  }

  lemma Ended(events: seq<Event>)
    requires events == [] || events[0].Done?
    ensures Fragments(events) == []
  {
  }

  lemma CollectSnoc(fragments: seq<string>, fragment: string)
    ensures Collect(fragments + [fragment]) == Merge(Collect(fragments), fragment)
  {
    assert (fragments + [fragment])[..|fragments|] == fragments;
  }

  // ---------------------------------------------------------------- one fragment

  /** Nothing collected is ever lost, the text ends with the latest fragment, and a repeated fragment
      changes nothing. */
  lemma MergeKeepsText(current: string, fragment: string)
    ensures current <= Merge(current, fragment)
    ensures EndsWith(Merge(current, fragment), fragment)
    ensures Merge(Merge(current, fragment), fragment) == Merge(current, fragment)
    ensures |current| <= |Merge(current, fragment)| <= |current| + |fragment|
  {
    if EndsWith(current, fragment) {
    } else if current <= fragment {
      assert fragment[0..] == fragment;
    } else {
      assert (current + fragment)[|current|..] == fragment;
    }
  }

  // ---------------------------------------------------------------- cumulative streams

  ghost predicate Cumulative(fragments: seq<string>) {
    forall i :: 0 < i < |fragments| ==> fragments[i - 1] <= fragments[i]
  }

  /** A cumulative stream ends as its last fragment. */
  lemma {:induction false} CumulativeEndsAsLast(fragments: seq<string>)
    requires Cumulative(fragments) && fragments != []
    ensures Collect(fragments) == fragments[|fragments| - 1]
  {
    hide Merge;
    var init, last := fragments[..|fragments| - 1], fragments[|fragments| - 1];
    if init == [] {
      ExtensionReplaces("", last);
    } else {
      CumulativeEndsAsLast(init);
      assert init[|init| - 1] <= last by { assert fragments[|fragments| - 2] <= fragments[|fragments| - 1]; }
      ExtensionReplaces(init[|init| - 1], last);
    }
  }

  lemma ExtensionReplaces(text: string, fragment: string)
    requires text <= fragment
    ensures Merge(text, fragment) == fragment
  {
    if EndsWith(text, fragment) { assert text[0..] == text; }
  }

  // ---------------------------------------------------------------- delta streams

  /** Fragment `k` would be mistaken for a repetition or for the whole text so far. */
  ghost predicate Mistaken(fragments: seq<string>, k: nat)
    requires k < |fragments|
  {
    var text := Concat(fragments[..k]);
    text != "" && fragments[k] != "" && (EndsWith(text, fragments[k]) || text <= fragments[k])
  }

  ghost predicate NoneMistaken(fragments: seq<string>) {
    forall k :: 0 <= k < |fragments| ==> !Mistaken(fragments, k)
  }

  /** A merge that adds the whole length of the fragment appends it. */
  lemma FullLengthAppends(text: string, last: string)
    requires |Merge(text, last)| == |text| + |last|
    ensures Merge(text, last) == text + last
  {
    if EndsWith(text, last) {
      assert last == "" && text + last == text;
    } else if text <= last {
      assert text == "" && text + last == last;
    }
  }

  lemma MistakenLosesText(text: string, last: string)
    ensures |Merge(text, last)| < |text| + |last|
       <==> text != "" && last != "" && (EndsWith(text, last) || text <= last)
  {
  }

  /** A delta stream ends as the concatenation of its fragments exactly when none of them, given the
      text before it, is a suffix or an extension of that text; otherwise it ends shorter. */
  lemma {:induction false} DeltaConcatenates(fragments: seq<string>)
    ensures Collect(fragments) == Concat(fragments) <==> NoneMistaken(fragments)
    ensures Collect(fragments) == Concat(fragments) || |Collect(fragments)| < |Concat(fragments)|
  {
    if fragments != [] {
      var n := |fragments| - 1;
      var init, last := fragments[..n], fragments[n];
      DeltaConcatenates(init);
      MistakenPrefix(fragments);
      MergeKeepsText(Collect(init), last);
      if Collect(init) == Concat(init) {
        MistakenLosesText(Concat(init), last);
        if !Mistaken(fragments, n) { FullLengthAppends(Concat(init), last); }
      }
    }
  }

  lemma MistakenPrefix(fragments: seq<string>)
    requires fragments != []
    ensures NoneMistaken(fragments)
       <==> NoneMistaken(fragments[..|fragments| - 1]) && !Mistaken(fragments, |fragments| - 1)
  {
    var init := fragments[..|fragments| - 1];
    forall k | 0 <= k < |init| ensures Mistaken(fragments, k) <==> Mistaken(init, k) {
      assert init[..k] == fragments[..k];
    }
  }

  /** A delta server that sends the same piece twice loses one of them. */
  lemma RepeatedPieceIsLost()
    ensures Collect(["ha", "ha"]) == "ha" && Concat(["ha", "ha"]) == "haha"
  {
    assert ["ha", "ha"][..1] == ["ha"] && ["ha"][..0] == [];
    assert Collect(["ha"]) == "ha" && EndsWith("ha", "ha");
    assert Concat(["ha"]) == "ha";
  }
}
