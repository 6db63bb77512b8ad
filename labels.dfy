/**
 * Label resolution (read_c3d.py lines 82-90): marker names become three axis
 * channels each, and analog labels lose their spaces and the "Force." and
 * "Moment." tokens.
 */
module Labels {

  /** `pat` occurs in `s` starting at index `i`. */
  predicate OccursAt(s: string, pat: string, i: int)
  {
    0 <= i && i + |pat| <= |s| && s[i..i + |pat|] == pat
  }

  predicate Contains(s: string, pat: string)
  {
    exists i | 0 <= i <= |s| :: OccursAt(s, pat, i)
  }

  /**
   * Python's `s.replace(pat, '')`: one left-to-right scan that drops every
   * leftmost, non-overlapping occurrence of `pat`, wherever it stands.
   */
  function RemoveAll(s: string, pat: string): (r: string)
    requires |pat| > 0
    ensures |r| <= |s|
    ensures forall ch :: ch in r ==> ch in s
    decreases |s|
  {
    if |s| < |pat| then s
    else if s[..|pat|] == pat then RemoveAll(s[|pat|..], pat)
    else [s[0]] + RemoveAll(s[1..], pat)
  }

  /** A string comes back unchanged exactly when the pattern does not occur in it. */
  lemma {:induction false} RemoveAllIdentity(s: string, pat: string)
    requires |pat| > 0
    ensures RemoveAll(s, pat) == s <==> !Contains(s, pat)
    decreases |s|
  {
    if Contains(s, pat) {
      RemoveAllShrinks(s, pat);
    } else if |s| >= |pat| {
      assert !OccursAt(s, pat, 0);
      forall i | OccursAt(s[1..], pat, i) ensures OccursAt(s, pat, i + 1) {
        assert s[1..][i..i + |pat|] == s[i + 1..i + 1 + |pat|];
      }
      RemoveAllIdentity(s[1..], pat);
    }
  }

  /** Removing a pattern that occurs strictly shortens the string. */
  lemma {:induction false} RemoveAllShrinks(s: string, pat: string)
    requires |pat| > 0
    requires Contains(s, pat)
    ensures |RemoveAll(s, pat)| < |s|
    decreases |s|
  {
    var i :| 0 <= i <= |s| && OccursAt(s, pat, i);
    assert |pat| <= |s|;
    if s[..|pat|] != pat {
      assert 1 <= i;
      var t := s[1..];
      assert t[i - 1..i - 1 + |pat|] == s[i..i + |pat|];
      assert OccursAt(t, pat, i - 1);
      RemoveAllShrinks(t, pat);
    }
  }

  /** Removing a one-character pattern leaves none of that character. */
  lemma {:induction false} RemoveCharGone(s: string, c: char)
    ensures c !in RemoveAll(s, [c])
    decreases |s|
  {
    if |s| >= 1 {
      RemoveCharGone(s[1..], c);
      if s[..1] != [c] {
        assert s[0] != c;
      }
    }
  }

  /** `x.replace(' ', '')`. */
  function StripSpaces(s: string): string
  {
    RemoveAll(s, " ")
  }

  /** The suffix of axis channel `k` of a marker. */
  function AxisSuffix(k: int): string
  {
    if k == 0 then "_x" else if k == 1 then "_y" else "_z"
  }

  /** `sum([[x + '_x', x + '_y', x + '_z'] for x in names], [])`. */
  function ExpandAxes(names: seq<string>): (r: seq<string>)
    ensures |r| == 3 * |names|
    ensures forall j :: 0 <= j < |r| ==> r[j] == names[j / 3] + AxisSuffix(j % 3)
  {
    if names == [] then []
    else
      var x := names[0];
      var tail := ExpandAxes(names[1..]);
      assert forall j :: 3 <= j < 3 * |names| ==> (j - 3) / 3 == j / 3 - 1 && (j - 3) % 3 == j % 3;
      [x + "_x", x + "_y", x + "_z"] + tail
  }

  /** Lines 82-84: spaces removed from each marker name, then each marker expanded to three channels. */
  function MocapLabels(markers: seq<string>): (r: seq<string>)
    ensures |r| == 3 * |markers|
    ensures forall j :: 0 <= j < |r| ==> r[j] == StripSpaces(markers[j / 3]) + AxisSuffix(j % 3)
  {
    ExpandAxes(seq(|markers|, i requires 0 <= i < |markers| => StripSpaces(markers[i])))
  }

  /** No mocap channel name contains a space. */
  lemma MocapLabelsHaveNoSpaces(markers: seq<string>)
    ensures forall j :: 0 <= j < |MocapLabels(markers)| ==> ' ' !in MocapLabels(markers)[j]
  {
    var r := MocapLabels(markers);
    forall j | 0 <= j < |r| ensures ' ' !in r[j] {
      RemoveCharGone(markers[j / 3], ' ');
      assert r[j] == StripSpaces(markers[j / 3]) + AxisSuffix(j % 3);
    }
  }

  /** One list comprehension `[x.replace(pat, '') for x in labels]`. */
  function RemoveEach(labels: seq<string>, pat: string): seq<string>
    requires |pat| > 0
  {
    seq(|labels|, i requires 0 <= i < |labels| => RemoveAll(labels[i], pat))
  }

  /** One analog label after the three replacements, in the order the code applies them. */
  function NormalizeForceLabel(s: string): string
  {
    RemoveAll(RemoveAll(RemoveAll(s, " "), "Force."), "Moment.")
  }

  /** Lines 85-90: the three comprehensions applied in turn to the ANALOG labels. */
  function ForceLabels(raw: seq<string>): (r: seq<string>)
    ensures |r| == |raw|
    ensures forall i :: 0 <= i < |r| ==> r[i] == NormalizeForceLabel(raw[i])
  {
    RemoveEach(RemoveEach(RemoveEach(raw, " "), "Force."), "Moment.")
  }

  /** A label holding no space, "Force." or "Moment." is left exactly as it is. */
  lemma NormalizeUnchanged(s: string)
    requires !Contains(s, " ") && !Contains(s, "Force.") && !Contains(s, "Moment.")
    ensures NormalizeForceLabel(s) == s
  {
    RemoveAllIdentity(s, " ");
    RemoveAllIdentity(s, "Force.");
    RemoveAllIdentity(s, "Moment.");
  }

  /** A normalized analog label never contains a space. */
  lemma NormalizedHasNoSpaces(s: string)
    ensures ' ' !in NormalizeForceLabel(s)
  {
    RemoveCharGone(s, ' ');
  }
}
