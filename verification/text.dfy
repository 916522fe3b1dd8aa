/** String helpers the timeline relies on: ASCII lower-casing, substring
    search (`String.prototype.includes`) and whitespace trimming
    (`String.prototype.trim`). A character is a Unicode scalar value; the
    page's strings are UTF-16, which differs only for characters outside the
    Basic Multilingual Plane and for lone surrogates, neither of which occurs
    in a category key. */
module Text {

  predicate IsUpper(c: char) {
    'A' <= c <= 'Z'
  }

  /** Lower-cases one character; only the ASCII letters A-Z change. */
  function LowerChar(c: char): (r: char)
    ensures IsUpper(c) ==> r as int == c as int + 32
    ensures !IsUpper(c) ==> r == c
    ensures !IsUpper(r)
  {
    if IsUpper(c) then (c as int + 32) as char else c
  }

  function ToLower(s: string): (r: string)
    ensures |r| == |s|
    ensures forall i :: 0 <= i < |s| ==> r[i] == LowerChar(s[i])
  {
    if |s| == 0 then "" else [LowerChar(s[0])] + ToLower(s[1..])
  }

  /** Lower-casing a string without upper-case letters changes nothing. */
  lemma {:induction false} ToLowerFixesLower(s: string)
    requires forall i :: 0 <= i < |s| ==> !IsUpper(s[i])
    ensures ToLower(s) == s
  {
    var r := ToLower(s);
    assert forall i :: 0 <= i < |s| ==> r[i] == s[i];
  }

  /** Lower-casing is idempotent. */
  lemma {:induction false} ToLowerIdempotent(s: string)
    ensures ToLower(ToLower(s)) == ToLower(s)
  {
    ToLowerFixesLower(ToLower(s));
  }

  /** `sub` occurs in `s` starting at index `i`. */
  predicate OccursAt(s: string, sub: string, i: int) {
    0 <= i && i + |sub| <= |s| && s[i..i + |sub|] == sub
  }

  /** `s.includes(sub)`: scans `s` for a position where `sub` is a prefix. */
  function Includes(s: string, sub: string): bool
    decreases |s|
  {
    if sub <= s then true
    else if |s| == 0 then false
    else Includes(s[1..], sub)
  }

  /** `Includes` holds exactly when `sub` occurs at some index of `s`. */
  lemma {:induction false} IncludesIffOccurs(s: string, sub: string)
    ensures Includes(s, sub) <==> exists i :: OccursAt(s, sub, i)
    decreases |s|
  {
    if sub <= s {
      assert OccursAt(s, sub, 0);
    } else if |s| == 0 {
    } else {
      IncludesIffOccurs(s[1..], sub);
      if Includes(s[1..], sub) {
        var i :| OccursAt(s[1..], sub, i);
        assert s[1..][i..i + |sub|] == s[i + 1..i + 1 + |sub|];
        assert OccursAt(s, sub, i + 1);
      } else {
        forall i | 1 <= i && OccursAt(s, sub, i)
          ensures OccursAt(s[1..], sub, i - 1)
        {
          assert s[1..][i - 1..i - 1 + |sub|] == s[i..i + |sub|];
        }
      }
    }
  }

  /** A string that lacks one of the characters of `sub` does not include it. */
  lemma {:induction false} MissingCharExcludes(s: string, sub: string, k: nat)
    requires k < |sub| && sub[k] !in s
    ensures !Includes(s, sub)
  {
    IncludesIffOccurs(s, sub);
  }

  /** If every occurrence in `s` of the `k`-th character of `sub` lies before
      index `k`, then `sub` cannot occur in `s`. */
  lemma {:induction false} EarlyCharExcludes(s: string, sub: string, k: nat)
    requires k < |sub|
    requires forall j :: 0 <= j < |s| && s[j] == sub[k] ==> j < k
    ensures !Includes(s, sub)
  {
    IncludesIffOccurs(s, sub);
    forall i | 0 <= i && i + |sub| <= |s|
      ensures !OccursAt(s, sub, i)
    {
      assert s[i..i + |sub|][k] == s[i + k] != sub[k];
    }
  }

  /** The characters `String.prototype.trim` removes: the white space
      characters (tab, vertical tab, form feed, space, no-break space, the
      byte-order mark and the Unicode space separators) and the line
      terminators. */
  predicate IsSpace(c: char) {
    c == ' ' || c == '\t' || c == '\n' || c == '\r' || c == '\U{B}' || c == '\U{C}'
    || c == '\U{A0}' || c == '\U{FEFF}' || c == '\U{2028}' || c == '\U{2029}'
    || c == '\U{1680}' || ('\U{2000}' <= c <= '\U{200A}')
    || c == '\U{202F}' || c == '\U{205F}' || c == '\U{3000}'
  }

  predicate AllSpace(s: string) {
    forall i :: 0 <= i < |s| ==> IsSpace(s[i])
  }

  /** Drops leading white space. */
  function TrimStart(s: string): (r: string)
    ensures |r| <= |s| && r == s[|s| - |r|..]
    ensures AllSpace(s[..|s| - |r|])
    ensures |r| > 0 ==> !IsSpace(r[0])
  {
    if |s| > 0 && IsSpace(s[0]) then TrimStart(s[1..]) else s
  }

  /** Drops trailing white space. */
  function TrimEnd(s: string): (r: string)
    ensures |r| <= |s| && r == s[..|r|]
    ensures AllSpace(s[|r|..])
    ensures |r| > 0 ==> !IsSpace(r[|r| - 1])
  {
    if |s| > 0 && IsSpace(s[|s| - 1]) then TrimEnd(s[..|s| - 1]) else s
  }

  /** `r` is the slice of `s` starting at `lo` with only white space cut on
      either side. */
  predicate TrimmedAt(s: string, r: string, lo: int) {
    0 <= lo && lo + |r| <= |s| && r == s[lo..lo + |r|]
    && AllSpace(s[..lo]) && AllSpace(s[lo + |r|..])
  }

  /** Trimming the start and then the end cuts white space only. */
  lemma {:induction false} TrimStartEnd(s: string)
    ensures TrimmedAt(s, TrimEnd(TrimStart(s)), |s| - |TrimStart(s)|)
  {
    var t := TrimStart(s);
    TrimmedPieces(s, t, TrimEnd(t), |s| - |t|);
  }

  /** Cutting white space off the front and then off the back of what is left
      cuts white space only. */
  lemma {:induction false} TrimmedPieces(s: string, t: string, r: string, lo: nat)
    requires lo <= |s| && t == s[lo..] && AllSpace(s[..lo])
    requires |r| <= |t| && r == t[..|r|] && AllSpace(t[|r|..])
    ensures TrimmedAt(s, r, lo)
  {
    assert t[|r|..] == s[lo + |r|..];
  }

  /** `s.trim()`: the result is a slice of `s` that neither starts nor ends
      with white space, and only white space was cut on either side. */
  function Trim(s: string): (r: string)
    ensures exists lo :: TrimmedAt(s, r, lo)
    ensures |r| > 0 ==> !IsSpace(r[0]) && !IsSpace(r[|r| - 1])
  {
    TrimStartEnd(s);
    TrimEnd(TrimStart(s))
  }
}
