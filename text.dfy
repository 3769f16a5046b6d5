/**
 * The string helpers the repository relies on: String.Trim, applied to the
 * hospital identifier at enrolment.
 */
module Text {
  /** The characters String.Trim removes that this model knows of: the ASCII
      white space, NEL and the no-break space. */
  predicate IsWhiteSpace(c: char)
  {
    c == ' ' || c == '\t' || c == '\n' || c == '\r' || c == '\U{000B}' || c == '\U{000C}'
    || c == '\U{0085}' || c == '\U{00A0}'
  }

  /** The first index at or after `i` that holds no white space (|s| if none). */
  function LeadEnd(s: string, i: nat): (r: nat)
    requires i <= |s|
    ensures i <= r <= |s|
    ensures forall k :: i <= k < r ==> IsWhiteSpace(s[k])
    ensures r == |s| || !IsWhiteSpace(s[r])
    decreases |s| - i
  {
    if i == |s| || !IsWhiteSpace(s[i]) then i else LeadEnd(s, i + 1)
  }

  /** The end of s[lo..j] once its trailing white space is cut off. */
  function TrailStart(s: string, lo: nat, j: nat): (r: nat)
    requires lo <= j <= |s|
    ensures lo <= r <= j
    ensures forall k :: r <= k < j ==> IsWhiteSpace(s[k])
    ensures r == lo || !IsWhiteSpace(s[r - 1])
    decreases j
  {
    if j == lo || !IsWhiteSpace(s[j - 1]) then j else TrailStart(s, lo, j - 1)
  }

  /**
   * String.Trim: the piece of the input between its leading and its
   * trailing white space. It neither starts nor ends with white space, and
   * everything cut off is white space.
   */
  function Trim(s: string): (r: string)
    ensures r == [] || (!IsWhiteSpace(r[0]) && !IsWhiteSpace(r[|r| - 1]))
    ensures var i := LeadEnd(s, 0);
            i + |r| <= |s| && r == s[i..i + |r|]
            && (forall k :: 0 <= k < i ==> IsWhiteSpace(s[k]))
            && (forall k :: i + |r| <= k < |s| ==> IsWhiteSpace(s[k]))
  {
    var i := LeadEnd(s, 0);
    s[i..TrailStart(s, i, |s|)]
  }

  /** Trimming twice is trimming once. */
  lemma TrimIdempotent(s: string)
    ensures Trim(Trim(s)) == Trim(s)
  {
    var r := Trim(s);
    assert LeadEnd(r, 0) == 0;
    assert TrailStart(r, 0, |r|) == |r|;
    assert r[0..|r|] == r;
  }
}
