/**
 * `YesNoAnswer.extract` of validator/parse_patient_response.py: a patient's
 * free-text answer is read as agreement when it contains "yes" in any letter
 * case, as disagreement when it contains "no" but not "yes", and as nothing
 * otherwise.
 */
module PatientResponse {
  import opened Wrappers
  import opened PyStr

  /** The letters y, e, s in any case start at index `i` of the raw answer. */
  predicate YesAt(answer: string, i: int)
  {
    0 <= i && i + 3 <= |answer|
    && LowerChar(answer[i]) == 'y' && LowerChar(answer[i + 1]) == 'e' && LowerChar(answer[i + 2]) == 's'
  }

  /** The letters n, o in any case start at index `i` of the raw answer. */
  predicate NoAt(answer: string, i: int)
  {
    0 <= i && i + 2 <= |answer| && LowerChar(answer[i]) == 'n' && LowerChar(answer[i + 1]) == 'o'
  }

  /**
   * `YesNoAnswer.extract`: `Some(true)` stands for `{"agree": True}`,
   * `Some(false)` for `{"agree": False}` and `None` for the implicit `None`
   * the method returns when neither test succeeds.
   */
  function Extract(answer: string): (r: Option<bool>)
    ensures r == Some(true) <==> exists i :: YesAt(answer, i)
    ensures r == Some(false) <==> (forall i :: !YesAt(answer, i)) && exists i :: NoAt(answer, i)
    ensures r == None <==> (forall i :: !YesAt(answer, i)) && forall i :: !NoAt(answer, i)
  {
    LowerContains(answer, "yes");
    LowerContains(answer, "no");
    if Contains(Lower(answer), "yes") then Some(true)
    else if Contains(Lower(answer), "no") then Some(false)
    else None
  }

  /** `t in answer.lower()` for a lower-case `t`, read off the raw characters. */
  lemma LowerContains(answer: string, t: string)
    requires t == "yes" || t == "no"
    ensures t == "yes" ==> (Contains(Lower(answer), t) <==> exists i :: YesAt(answer, i))
    ensures t == "no" ==> (Contains(Lower(answer), t) <==> exists i :: NoAt(answer, i))
  {
    var l := Lower(answer);
    ContainsIffMatch(l, t);
    if t == "yes" {
      forall i ensures MatchAt(l, t, i) <==> YesAt(answer, i) {
        if 0 <= i && i + 3 <= |answer| {
          assert l[i..i + 3] == [l[i], l[i + 1], l[i + 2]];
        }
      }
    } else {
      forall i ensures MatchAt(l, t, i) <==> NoAt(answer, i) {
        if 0 <= i && i + 2 <= |answer| {
          assert l[i..i + 2] == [l[i], l[i + 1]];
        }
      }
    }
  }

  /** The answer is read the same whatever its letter case: `extract(a) == extract(a.lower())`. */
  lemma ExtractIgnoresCase(answer: string)
    ensures Extract(Lower(answer)) == Extract(answer)
  {
    LowerIdempotent(answer);
  }

  /** "yes" takes priority: an answer containing both words is agreement. */
  lemma YesBeatsNo(answer: string, i: int, j: int)
    requires YesAt(answer, i) && NoAt(answer, j)
    ensures Extract(answer) == Some(true)
  {
  }

  /**
   * Matching is by substring: whatever surrounds an answer that agrees, the
   * longer answer still agrees, and an answer that is read as yes or no is
   * still read as yes or no once surrounded by more text.
   */
  lemma ExtractSurrounded(p: string, u: string, q: string)
    ensures Extract(u) == Some(true) ==> Extract(p + u + q) == Some(true)
    ensures Extract(u) != None ==> Extract(p + u + q) != None
  {
    LowerConcat(p + u, q);
    LowerConcat(p, u);
    LowerContains(u, "yes");
    LowerContains(u, "no");
    LowerContains(p + u + q, "yes");
    LowerContains(p + u + q, "no");
    if Contains(Lower(u), "yes") {
      ContainsInfix(Lower(p), Lower(u), Lower(q), "yes");
    }
    if Contains(Lower(u), "no") {
      ContainsInfix(Lower(p), Lower(u), Lower(q), "no");
    }
  }

  /** "eyes" agrees and "I know" disagrees: words are not separated before matching. */
  lemma SubstringExamples()
    ensures Extract("eyes") == Some(true)
    ensures Extract("I know") == Some(false)
    ensures Extract("YES, no") == Some(true)
  {
    assert YesAt("eyes", 1);
    assert NoAt("I know", 3);
    assert forall i :: !YesAt("I know", i) by {
      forall i | 0 <= i && i + 3 <= 6 ensures !YesAt("I know", i) {
        assert "I know"[i + 1] != 'e' && "I know"[i + 1] != 'E';
      }
    }
    assert YesAt("YES, no", 0);
  }
}
