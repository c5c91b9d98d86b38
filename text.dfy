/** Whitespace trimming as `String.prototype.trim` does it, over a fixed set of space characters. */
module Text {

  /** The characters this model treats as whitespace: the ASCII spaces and line breaks,
      vertical tab, form feed, no-break space and the byte-order mark. */
  predicate IsSpace(c: char) {
    c == ' ' || c == '\t' || c == '\n' || c == '\r' ||
    c == '\U{000B}' || c == '\U{000C}' || c == '\U{00A0}' || c == '\U{FEFF}'
  }

  /** Every character of `s` from `lo` up to `hi` is whitespace. */
  predicate SpaceIn(s: string, lo: nat, hi: nat)
    requires lo <= hi <= |s|
  {
    forall k :: lo <= k < hi ==> IsSpace(s[k])
  }

  /** A string that has no whitespace at either end. */
  predicate IsTrimmed(s: string) {
    s == [] || (!IsSpace(s[0]) && !IsSpace(s[|s| - 1]))
  }

  /** Drops the trailing whitespace. */
  function TrimEnd(s: string): (r: string)
    ensures |r| <= |s|
  {
    if s != [] && IsSpace(s[|s| - 1]) then TrimEnd(s[..|s| - 1]) else s
  }

  /** What `TrimEnd` leaves is a prefix of `s`, everything it drops is whitespace, and what
      is left does not end with whitespace. */
  lemma {:induction false} TrimEndCutsSpace(s: string)
    ensures TrimEnd(s) == s[..|TrimEnd(s)|]
    ensures SpaceIn(s, |TrimEnd(s)|, |s|)
    ensures TrimEnd(s) == [] || !IsSpace(TrimEnd(s)[|TrimEnd(s)| - 1])
  {
    if s != [] && IsSpace(s[|s| - 1]) {
      var t := s[..|s| - 1];
      TrimEndCutsSpace(t);
      assert TrimEnd(s) == TrimEnd(t);
      assert t[..|TrimEnd(t)|] == s[..|TrimEnd(t)|];
    }
  }

  /** `trim()`: drops the leading whitespace, then the trailing whitespace; the result has
      none left at either end. */
  function Trim(s: string): (r: string)
    ensures IsTrimmed(r)
    ensures |r| <= |s|
  {
    if s != [] && IsSpace(s[0]) then Trim(s[1..])
    else
      TrimEndCutsSpace(s);
      TrimEnd(s)
  }

  /** Trimming cuts only whitespace, and only from the ends: the result is a slice of `s`
      with nothing but whitespace before and after it. */
  lemma {:induction false} TrimCutsOnlySpace(s: string)
    ensures exists i, j :: 0 <= i <= j <= |s| && Trim(s) == s[i..j] && SpaceIn(s, 0, i) && SpaceIn(s, j, |s|)
  {
    if s != [] && IsSpace(s[0]) {
      TrimCutsOnlySpace(s[1..]);
      var i, j :| 0 <= i <= j <= |s| - 1 && Trim(s[1..]) == s[1..][i..j] && SpaceIn(s[1..], 0, i) && SpaceIn(s[1..], j, |s| - 1);
      LeadingSpaceCut(s, i, j);
    } else {
      TrimEndCutsSpace(s);
      assert Trim(s) == s[0..|TrimEnd(s)|];
    }
  }

  /** A cut of the tail of `s` is a cut of `s` one further on, when `s` starts with whitespace. */
  lemma LeadingSpaceCut(s: string, i: nat, j: nat)
    requires s != [] && IsSpace(s[0]) && i <= j <= |s| - 1
    requires Trim(s[1..]) == s[1..][i..j] && SpaceIn(s[1..], 0, i) && SpaceIn(s[1..], j, |s| - 1)
    ensures Trim(s) == s[i + 1..j + 1] && SpaceIn(s, 0, i + 1) && SpaceIn(s, j + 1, |s|)
  {
    assert s[1..][i..j] == s[i + 1..j + 1];
    forall k | 0 <= k < i + 1 ensures IsSpace(s[k]) {
      if k > 0 { assert s[k] == s[1..][k - 1]; }
    }
    forall k | j + 1 <= k < |s| ensures IsSpace(s[k]) {
      assert s[k] == s[1..][k - 1];
    }
  }

  /** Trimming leaves a string unchanged exactly when it has no whitespace at either end. */
  lemma TrimUnchangedIff(s: string)
    ensures Trim(s) == s <==> IsTrimmed(s)
  {
    if IsTrimmed(s) && s != [] {
      assert TrimEnd(s) == s;
    }
  }

  /** Trimming twice is trimming once. */
  lemma TrimIdempotent(s: string)
    ensures Trim(Trim(s)) == Trim(s)
  {
    TrimUnchangedIff(Trim(s));
  }

  /** Trimming never makes a string longer, and shortens it exactly when it was not trimmed. */
  lemma TrimShortens(s: string)
    ensures |Trim(s)| < |s| <==> !IsTrimmed(s)
  {
    TrimUnchangedIff(s);
    TrimCutsOnlySpace(s);
  }
}
