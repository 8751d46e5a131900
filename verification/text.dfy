/** Input validation used by every form of the application: the user's name,
    a new post, a reply and a top-level comment are accepted only when their
    `strip()`ped form is non-empty, and it is the stripped form that is stored. */
module Text {
  import opened Wrappers

  /** The characters Python's `str.isspace()` accepts, which is exactly the set
      `str.strip()` with no argument removes from both ends. */
  const Whitespace: set<char> := {
    '\t', '\n', '\U{0B}', '\U{0C}', '\r', '\U{1C}', '\U{1D}', '\U{1E}', '\U{1F}', ' ',
    '\U{85}', '\U{A0}', '\U{1680}',
    '\U{2000}', '\U{2001}', '\U{2002}', '\U{2003}', '\U{2004}', '\U{2005}',
    '\U{2006}', '\U{2007}', '\U{2008}', '\U{2009}', '\U{200A}',
    '\U{2028}', '\U{2029}', '\U{202F}', '\U{205F}', '\U{3000}'
  }

  predicate IsSpace(ch: char) {
    ch in Whitespace
  }

  predicate AllSpace(s: string) {
    forall k :: 0 <= k < |s| ==> IsSpace(s[k])
  }

  /** `r` has no white space at either end (or is empty). */
  predicate Tight(r: string) {
    r == [] || (!IsSpace(r[0]) && !IsSpace(r[|r| - 1]))
  }

  /** `r` is what remains of `s` once white space is cut from both ends:
      `s` is white space, then `r`, then white space, and `r` is tight. */
  ghost predicate IsStripOf(s: string, r: string) {
    Tight(r) && exists i :: StripAt(s, i, r)
  }

  /** `s` is `i` white-space characters, then `r`, then white space. */
  predicate StripAt(s: string, i: int, r: string) {
    && 0 <= i && i + |r| <= |s|
    && s[i..i + |r|] == r
    && (forall m :: 0 <= m < i ==> IsSpace(s[m]))
    && (forall m :: i + |r| <= m < |s| ==> IsSpace(s[m]))
  }

  /** Where `s.lstrip()` starts: the first position from `i` on that is not
      white space, or the end. */
  function SkipSpace(s: string, i: nat): (k: nat)
    requires i <= |s|
    ensures i <= k <= |s|
    ensures forall m :: i <= m < k ==> IsSpace(s[m])
    ensures k < |s| ==> !IsSpace(s[k])
    decreases |s| - i
  {
    if i == |s| || !IsSpace(s[i]) then i else SkipSpace(s, i + 1)
  }

  /** Where `s.rstrip()` ends, looking no further back than `lo`: the
      position after the last character before `j` that is not white space. */
  function BackSpace(s: string, lo: nat, j: nat): (k: nat)
    requires lo <= j <= |s|
    ensures lo <= k <= j
    ensures forall m :: k <= m < j ==> IsSpace(s[m])
    ensures k > lo ==> !IsSpace(s[k - 1])
    decreases j
  {
    if j == lo || !IsSpace(s[j - 1]) then j else BackSpace(s, lo, j - 1)
  }

  /** `s.strip()` */
  function Trim(s: string): (r: string)
    ensures IsStripOf(s, r)
  {
    var i := SkipSpace(s, 0);
    var j := BackSpace(s, i, |s|);
    assert StripAt(s, i, s[i..j]);
    s[i..j]
  }

  /** A strip with something left in it starts at the first non-space
      character of the string. */
  lemma StripStartsAtFirstNonSpace(s: string, i: int, r: string, k: int)
    requires StripAt(s, i, r) && Tight(r) && r != []
    requires 0 <= k < |s| && !IsSpace(s[k])
    ensures i <= k
  {
  }

  /** ... and ends just after its last non-space character. */
  lemma StripEndsAtLastNonSpace(s: string, i: int, r: string, k: int)
    requires StripAt(s, i, r) && Tight(r) && r != []
    requires 0 <= k < |s| && !IsSpace(s[k])
    ensures k < i + |r|
  {
  }

  /** An empty strip leaves no non-space character behind. */
  lemma EmptyStripAllSpace(s: string, i: int, k: int)
    requires StripAt(s, i, [])
    requires 0 <= k < |s|
    ensures IsSpace(s[k])
  {
  }

  /** The strip of a string is unique: whichever way `s` is split into white
      space, a tight middle and white space, the middle is the same. */
  lemma StripUnique(s: string, r1: string, r2: string)
    requires IsStripOf(s, r1) && IsStripOf(s, r2)
    ensures r1 == r2
  {
    var i1 :| StripAt(s, i1, r1);
    var i2 :| StripAt(s, i2, r2);
    if r1 != [] && r2 != [] {
      assert s[i1] == r1[0] && s[i2] == r2[0];
      StripStartsAtFirstNonSpace(s, i1, r1, i2);
      StripStartsAtFirstNonSpace(s, i2, r2, i1);
      assert s[i1 + |r1| - 1] == r1[|r1| - 1] && s[i2 + |r2| - 1] == r2[|r2| - 1];
      StripEndsAtLastNonSpace(s, i1, r1, i2 + |r2| - 1);
      StripEndsAtLastNonSpace(s, i2, r2, i1 + |r1| - 1);
    }
  }

  /** Stripping twice is stripping once. */
  lemma TrimIdempotent(s: string)
    ensures Trim(Trim(s)) == Trim(s)
  {
    var r := Trim(s);
    assert r[0..0 + |r|] == r;
    assert StripAt(r, 0, r);
    StripUnique(r, Trim(r), r);
  }

  /** The stripped form is empty exactly when the input is all white space. */
  lemma TrimEmptyIff(s: string)
    ensures Trim(s) == [] <==> AllSpace(s)
  {
    var r := Trim(s);
    if AllSpace(s) {
      assert s[0..0] == [];
      assert StripAt(s, 0, []);
      StripUnique(s, r, []);
    } else {
      var k :| 0 <= k < |s| && !IsSpace(s[k]);
      var i :| StripAt(s, i, r);
      if r == [] {
        EmptyStripAllSpace(s, i, k);
      }
    }
  }

  /** The validation every form applies before writing: `if text.strip():`. */
  function Accept(s: string): (b: bool)
    ensures b <==> exists k :: 0 <= k < |s| && !IsSpace(s[k])
  {
    TrimEmptyIff(s);
    Trim(s) != []
  }

  /** Validate a submitted text: `None` is the "cannot be empty" error, and
      `Some(t)` carries the text to store. */
  function Validate(s: string): (r: Option<string>)
    ensures r.Some? <==> exists k :: 0 <= k < |s| && !IsSpace(s[k])
    ensures r.Some? ==> r.value != [] && IsStripOf(s, r.value)
  {
    TrimEmptyIff(s);
    if Accept(s) then Some(Trim(s)) else None
  }

  /** The documented examples: empty and blank posts are refused, "hello" is
      stored unchanged. */
  lemma ValidateExamples()
    ensures Validate("") == None
    ensures Validate("   ") == None
    ensures Validate("hello") == Some("hello")
  {
    var hello := "hello";
    assert !IsSpace(hello[0]) && !IsSpace(hello[4]);
    assert hello[0..5] == hello;
    var blank := "   ";
    assert IsSpace(blank[0]) && IsSpace(blank[1]) && IsSpace(blank[2]);
  }
}
