/** Answer extraction: how the application turns the chain's raw output into
    the answer it shows. The presence test looks for "Answer:" without a
    space, while the split is on "Answer: " with a space, and the second piece
    of that split is taken. So the answer is the text between the first and
    the second "Answer: " (or the end), stripped; and an output that holds
    "Answer:" but never "Answer: " has no second piece, which fails. */
module Answer {
  import opened Wrappers
  import opened Strings

  /** The marker the presence test looks for, "Answer:". */
  const TestMarker: Text := FromString("Answer:")

  /** The separator the output is split on, "Answer: ". */
  const SplitMarker: Text := FromString("Answer: ")

  /** Indexing the split's second piece when there is none. */
  datatype ExtractError = IndexError

  /** Every occurrence of "Answer: " is an occurrence of "Answer:". */
  lemma SplitMarkerHasTestMarker(s: Text, k: int)
    requires OccursAt(s, SplitMarker, k)
    ensures OccursAt(s, TestMarker, k)
  {
    assert SplitMarker[..|TestMarker|] == TestMarker;
    assert s[k..k + |TestMarker|] == s[k..k + |SplitMarker|][..|TestMarker|];
  }

  lemma ContainsTestMarker(s: Text)
    ensures Contains(s, SplitMarker) ==> Contains(s, TestMarker)
  {
    if Contains(s, SplitMarker) {
      SplitMarkerHasTestMarker(s, FindFrom(s, SplitMarker, 0).value);
    }
  }

  /** The answer shown for the raw chain output `output`. */
  function ExtractAnswer(output: Text): (r: Result<Text, ExtractError>)
    ensures !Contains(output, TestMarker) ==> r == Ok(output)
    ensures r.Err? <==> Contains(output, TestMarker) && !Contains(output, SplitMarker)
    ensures Contains(output, SplitMarker) ==> r.Ok? && NoEdgeSpace(r.value)
  {
    ContainsTestMarker(output);
    if Contains(output, TestMarker) then
      var pieces := Split(output, SplitMarker);
      if |pieces| > 1 then Ok(Strip(pieces[1])) else Err(IndexError)
    else
      Ok(output)
  }

  /** When "Answer: " first occurs at `i` and next occurs at `j` (or `j` is
      the end of the output), the answer is the stripped text in between:
      whatever follows a second "Answer: " is dropped. */
  lemma ExtractBetweenMarkers(output: Text, i: nat, j: nat)
    requires OccursAt(output, SplitMarker, i)
    requires forall k :: 0 <= k < i ==> !OccursAt(output, SplitMarker, k)
    requires i + |SplitMarker| <= j <= |output|
    requires j == |output| || OccursAt(output, SplitMarker, j)
    requires forall k :: i + |SplitMarker| <= k < j ==> !OccursAt(output, SplitMarker, k)
    ensures ExtractAnswer(output) == Ok(Strip(output[i + |SplitMarker|..j]))
  {
    SplitSecondPiece(output, SplitMarker, i, j);
    SplitMarkerHasTestMarker(output, i);
  }

  /** "Answer: " can only start where an 'A' stands, so it never starts
      inside a stretch copied from a literal without one. */
  lemma NoMarkerInLiteral(s: Text, lit: string, at: nat)
    requires 'A' !in lit
    requires at + |lit| <= |s| && s[at..at + |lit|] == FromString(lit)
    ensures forall k :: at <= k < at + |lit| ==> !OccursAt(s, SplitMarker, k)
  {
    forall k | at <= k < at + |lit|
      ensures !OccursAt(s, SplitMarker, k)
    {
      assert s[k] == s[at..at + |lit|][k - at] == lit[k - at] as int;
      assert lit[k - at] in lit;
      assert SplitMarker[0] == 'A' as int;
    }
  }

  /** Text before the marker is dropped. */
  lemma ExtractAfterMarker()
    ensures ExtractAnswer(FromString("Context: ... ") + SplitMarker + FromString("Paris."))
            == Ok(FromString("Paris."))
  {
    var context, answer := FromString("Context: ... "), FromString("Paris.");
    var s := context + SplitMarker + answer;
    assert |s| == 27 && s[21..27] == answer;
    ScenarioMarkerOnce(context, answer);
    ExtractBetweenMarkers(s, 13, 27);
    ScenarioAnswerStripped(answer);
  }

  /** The scenario's output holds "Answer: " only right after the context. */
  lemma ScenarioMarkerOnce(context: Text, answer: Text)
    requires context == FromString("Context: ... ")
    requires answer == FromString("Paris.")
    ensures forall k :: 0 <= k < |context| ==> !OccursAt(context + SplitMarker + answer, SplitMarker, k)
    ensures forall k :: |context| + |SplitMarker| <= k ==> !OccursAt(context + SplitMarker + answer, SplitMarker, k)
  {
    var s := context + SplitMarker + answer;
    assert s[..13] == context && s[21..] == answer;
    NoMarkerInLiteral(s, "Context: ... ", 0);
    NoMarkerInLiteral(s, "Paris.", 21);
  }

  /** The scenario's answer has no whitespace at either end to strip. */
  lemma ScenarioAnswerStripped(t: Text)
    requires t == FromString("Paris.")
    ensures Strip(t) == t
  {
    assert |t| == 6;
    assert !IsSpace(t[0]);
    assert !IsSpace(t[5]);
    StripClean(t);
  }

  /** Only the text up to the next "Answer: " is returned, without the
      whitespace before that marker. */
  lemma ExtractStopsAtSecondMarker()
    ensures ExtractAnswer(SplitMarker + FromString("yes") + FromString(" ") + SplitMarker + FromString("no"))
            == Ok(FromString("yes"))
  {
    var yes, space, no := FromString("yes"), FromString(" "), FromString("no");
    var s := SplitMarker + yes + space + SplitMarker + no;
    ScenarioTwoMarkers(s, yes, space, no);
    ExtractBetweenMarkers(s, 0, 12);
    ScenarioYesStripped(yes, space);
  }

  /** The scenario's output holds "Answer: " at 0 and at 12 and nowhere in
      between; in between stand "yes" and a space. */
  lemma ScenarioTwoMarkers(s: Text, yes: Text, space: Text, no: Text)
    requires yes == FromString("yes") && space == FromString(" ") && no == FromString("no")
    requires s == SplitMarker + yes + space + SplitMarker + no
    ensures |s| == 22 && s[8..12] == yes + space
    ensures OccursAt(s, SplitMarker, 0) && OccursAt(s, SplitMarker, 12)
    ensures forall k :: 8 <= k < 12 ==> !OccursAt(s, SplitMarker, k)
  {
    assert s[..8] == SplitMarker && s[12..20] == SplitMarker;
    assert s[8..11] == yes && s[11..12] == space;
    NoMarkerInLiteral(s, "yes", 8);
    NoMarkerInLiteral(s, " ", 11);
  }

  lemma ScenarioYesStripped(yes: Text, space: Text)
    requires yes == FromString("yes") && space == FromString(" ")
    ensures Strip(yes + space) == yes
  {
    assert !IsSpace(yes[0]) && !IsSpace(yes[2]) && IsSpace(space[0]);
    assert [] + yes + space == yes + space;
    StripAround([], yes, space);
  }

  /** "Answer:" with no space after it anywhere makes extraction fail. */
  lemma ExtractWithoutSpaceFails()
    ensures ExtractAnswer(FromString("Answer:yes")) == Err(IndexError)
  {
    var s := FromString("Answer:yes");
    assert s[..7] == TestMarker;
    assert OccursAt(s, TestMarker, 0);
    forall k | 0 <= k
      ensures !OccursAt(s, SplitMarker, k)
    {
      if k == 0 {
        assert s[7] != SplitMarker[7];
      } else if k <= 2 {
        assert s[k] != SplitMarker[0];
      }
    }
  }
}
