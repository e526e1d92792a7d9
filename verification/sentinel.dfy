/**
 The end-of-payload marker: the packer appends `"====="` to the secret and the
 unpacker keeps what precedes its first occurrence (`s.split("=====")[0]`).
 */
module Sentinel {

  const Mark: string := "====="

  /** The marker starts at index `i` of `s`. */
  predicate OccursAt(s: string, i: nat)
  {
    i + |Mark| <= |s| && s[i .. i + |Mark|] == Mark
  }

  /**
   `s.split("=====")[0]`: the longest prefix of `s` in which no marker starts,
   which is all of `s` when the marker does not occur.
   */
  function BeforeMark(s: string): (r: string)
    ensures r <= s
    ensures forall i :: 0 <= i < |r| ==> !OccursAt(s, i)
    ensures r == s || OccursAt(s, |r|)
    ensures forall i :: 0 <= i < |r| ==> !OccursAt(r, i)
    decreases |s|
  {
    if |s| < |Mark| then s
    else if s[..|Mark|] == Mark then []
    else
      var r := [s[0]] + BeforeMark(s[1..]);
      ShiftOccurrence(s);
      PrefixHasNoMark(r, s);
      r
  }

  /** A prefix of `s` before which `s` has no marker has no marker itself. */
  lemma PrefixHasNoMark(r: string, s: string)
    requires r <= s
    requires forall i :: 0 <= i < |r| ==> !OccursAt(s, i)
    ensures forall i :: 0 <= i < |r| ==> !OccursAt(r, i)
  {
    forall i | 0 <= i < |r| && OccursAt(r, i)
      ensures OccursAt(s, i)
    {
      PrefixOccurrence(r, s, i);
    }
  }

  lemma ShiftOccurrence(s: string)
    requires |s| > 0
    ensures forall i :: 1 <= i < |s| ==> (OccursAt(s, i) <==> OccursAt(s[1..], i - 1))
  {
    forall i | 1 <= i < |s|
      ensures OccursAt(s, i) <==> OccursAt(s[1..], i - 1)
    {
      if i + |Mark| <= |s| {
        assert s[1..][i - 1 .. i - 1 + |Mark|] == s[i .. i + |Mark|];
      }
    }
  }

  /** No marker starts inside a prefix: only where the secret ends. */
  lemma PrefixOccurrence(r: string, s: string, i: nat)
    requires r <= s && OccursAt(r, i)
    ensures OccursAt(s, i)
  {
    assert s[i .. i + |Mark|] == r[i .. i + |Mark|];
  }

  /**
   The first marker in `s + "====="` is the appended one: the secret neither
   contains the marker nor ends in a run of `=` that joins the appended one.
   */
  predicate NoEarlyMark(s: string)
  {
    forall i :: 0 <= i < |s| ==> !OccursAt(s + Mark, i)
  }

  /** Cutting at the first marker recovers a secret that has no early marker, whatever follows. */
  lemma BeforeMarkOfPayload(s: string, rest: string)
    requires NoEarlyMark(s)
    ensures BeforeMark(s + Mark + rest) == s
  {
    var t := s + Mark + rest;
    var r := BeforeMark(t);
    assert t[|s| .. |s| + |Mark|] == Mark;
    assert OccursAt(t, |s|);
    forall i | 0 <= i < |s|
      ensures !OccursAt(t, i)
    {
      assert !OccursAt(s + Mark, i);
      assert t[i .. i + |Mark|] == (s + Mark)[i .. i + |Mark|];
    }
    assert |r| == |s|;
    assert r == t[..|s|] == s;
  }
}
