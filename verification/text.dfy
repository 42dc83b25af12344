/**
 The two string operations the product filter uses: lower-casing and the
 substring test of `String.prototype.includes`. Lower-casing is modelled as
 the ASCII fold; other Unicode case mappings are not part of this model.
 */
module Text {

  /** Lower-case one character: 'A'..'Z' map to 'a'..'z', everything else is kept. */
  function LowerChar(c: char): char
  {
    if 'A' <= c <= 'Z' then (c as int + 32) as char else c
  }

  predicate IsUpper(c: char)
  {
    'A' <= c <= 'Z'
  }

  function ToLower(s: string): (r: string)
    ensures |r| == |s|
    ensures forall i :: 0 <= i < |s| ==> r[i] == LowerChar(s[i])
    ensures forall i :: 0 <= i < |r| ==> !IsUpper(r[i])
  {
    seq(|s|, i requires 0 <= i < |s| => LowerChar(s[i]))
  }

  /** Lower-casing an already lower-cased string changes nothing. */
  lemma ToLowerIdempotent(s: string)
    ensures ToLower(ToLower(s)) == ToLower(s)
  {
  }

  /** `t` occurs in `s` starting at index `k`. */
  predicate OccursAt(s: string, t: string, k: int)
  {
    0 <= k && k + |t| <= |s| && s[k..k + |t|] == t
  }

  /** The declarative meaning of `s.includes(t)`: some window of `s` equals `t`. */
  ghost predicate Occurs(s: string, t: string)
  {
    exists k :: OccursAt(s, t, k)
  }

  /** `s.includes(t)`, computed by trying every start position from the left. */
  predicate Includes(s: string, t: string)
    decreases |s|
  {
    t <= s || (|s| > 0 && Includes(s[1..], t))
  }

  /** The scanning definition agrees with the declarative one in both directions. */
  lemma {:induction false} IncludesIffOccurs(s: string, t: string)
    ensures Includes(s, t) <==> Occurs(s, t)
    decreases |s|
  {
    if t <= s {
      assert OccursAt(s, t, 0);
    } else if |s| == 0 {
      forall k
        ensures !OccursAt(s, t, k)
      {
      }
    } else {
      IncludesIffOccurs(s[1..], t);
      if Includes(s[1..], t) {
        var k :| OccursAt(s[1..], t, k);
        assert s[k + 1..k + 1 + |t|] == s[1..][k..k + |t|];
        assert OccursAt(s, t, k + 1);
      }
      if Occurs(s, t) {
        var k :| OccursAt(s, t, k);
        if k == 0 {
          assert false;
        }
        assert s[1..][k - 1..k - 1 + |t|] == s[k..k + |t|];
        assert OccursAt(s[1..], t, k - 1);
      }
    }
  }

  /** Every string includes the empty string, as `"abc".includes("")` is true. */
  lemma IncludesEmpty(s: string)
    ensures Includes(s, "")
  {
  }

}
