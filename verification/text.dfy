/** The two string primitives the ingestion and batch code rely on:
    `strings.TrimSpace` and `strings.ToLower`, restricted to ASCII. */
module Text {

  /** ASCII white space as `strings.TrimSpace` understands it. */
  predicate IsSpace(c: char)
  {
    c == ' ' || c == '\t' || c == '\n' || c == '\r' || c == '\U{000B}' || c == '\U{000C}'
  }

  predicate AllSpace(s: string)
  {
    forall i :: 0 <= i < |s| ==> IsSpace(s[i])
  }

  /** Neither end of `s` is white space. */
  predicate IsTrimmed(s: string)
  {
    |s| == 0 || (!IsSpace(s[0]) && !IsSpace(s[|s| - 1]))
  }

  /** Drops leading white space (see `TrimLeftShape`). */
  function TrimLeft(s: string): (r: string)
    ensures |r| <= |s|
  {
    if |s| > 0 && IsSpace(s[0]) then TrimLeft(s[1..]) else s
  }

  /** Drops trailing white space (see `TrimRightShape`). */
  function TrimRight(s: string): (r: string)
    ensures |r| <= |s|
  {
    if |s| > 0 && IsSpace(s[|s| - 1]) then TrimRight(s[..|s| - 1]) else s
  }

  /** What `TrimLeft` drops is all space, what it keeps is a suffix that
      does not start with space. */
  lemma {:induction false} TrimLeftShape(s: string)
    ensures TrimLeft(s) == s[|s| - |TrimLeft(s)|..]
    ensures AllSpace(s[..|s| - |TrimLeft(s)|])
    ensures |TrimLeft(s)| == 0 || !IsSpace(TrimLeft(s)[0])
    decreases |s|
  {
    if |s| > 0 && IsSpace(s[0]) {
      TrimLeftShape(s[1..]);
      var k := |s| - |TrimLeft(s)|;
      assert s[1..][..k - 1] == s[1..k];
      assert s[..k] == [s[0]] + s[1..k];
    }
  }

  /** What `TrimRight` drops is all space, what it keeps is a prefix that
      does not end with space. */
  lemma {:induction false} TrimRightShape(s: string)
    ensures TrimRight(s) == s[..|TrimRight(s)|]
    ensures AllSpace(s[|TrimRight(s)|..])
    ensures |TrimRight(s)| == 0 || !IsSpace(TrimRight(s)[|TrimRight(s)| - 1])
    decreases |s|
  {
    if |s| > 0 && IsSpace(s[|s| - 1]) {
      TrimRightShape(s[..|s| - 1]);
      var k := |TrimRight(s)|;
      assert s[..|s| - 1][k..] + [s[|s| - 1]] == s[k..];
    }
  }

  /** `strings.TrimSpace`: drops white space at both ends (where the
      result sits in the input is `TrimIsInfix`). */
  function Trim(s: string): (r: string)
    ensures IsTrimmed(r)
    ensures |r| <= |s|
  {
    var l := TrimLeft(s);
    var r := TrimRight(l);
    TrimShape(s, l, r, |s| - |l|);
    r
  }

  /** What `Trim` removes is white space on either side of its result. */
  lemma TrimIsInfix(s: string)
    ensures var i := |s| - |TrimLeft(s)|;
            && i <= |s| - |Trim(s)| && Trim(s) == s[i..i + |Trim(s)|]
            && AllSpace(s[..i]) && AllSpace(s[i + |Trim(s)|..])
  {
    var l := TrimLeft(s);
    TrimShape(s, l, TrimRight(l), |s| - |l|);
  }

  /** Only white space trims to the empty string. */
  lemma TrimEmptyIffAllSpace(s: string)
    ensures Trim(s) == "" <==> AllSpace(s)
  {
    TrimIsInfix(s);
    if AllSpace(s) {
      assert s == s + "" + "";
      TrimOfPadded(s, "", "");
    }
  }

  /** Where `Trim`'s result sits inside its input: after the `|s| - |l|`
      characters that `TrimLeft` dropped. */
  lemma TrimShape(s: string, l: string, r: string, i: nat)
    requires l == TrimLeft(s) && r == TrimRight(l) && i == |s| - |l|
    ensures i <= |s| - |r| && r == s[i..i + |r|]
    ensures AllSpace(s[..i]) && AllSpace(s[i + |r|..])
    ensures IsTrimmed(r)
  {
    TrimLeftShape(s);
    TrimRightShape(l);
    assert l == s[i..];
    assert r == l[..|r|];
    assert s[i..i + |r|] == l[..|r|];
    assert s[i + |r|..] == l[|r|..];
    if |r| > 0 {
      assert r[0] == l[0];
    }
  }

  lemma {:induction false} TrimLeftOfSpaces(a: string, rest: string)
    requires AllSpace(a)
    requires |rest| == 0 || !IsSpace(rest[0])
    ensures TrimLeft(a + rest) == rest
    decreases |a|
  {
    if |a| > 0 {
      assert (a + rest)[1..] == a[1..] + rest;
      TrimLeftOfSpaces(a[1..], rest);
    } else {
      assert a + rest == rest;
    }
  }

  lemma {:induction false} TrimRightOfSpaces(rest: string, b: string)
    requires AllSpace(b)
    requires |rest| == 0 || !IsSpace(rest[|rest| - 1])
    ensures TrimRight(rest + b) == rest
    decreases |b|
  {
    if |b| > 0 {
      assert (rest + b)[..|rest + b| - 1] == rest + b[..|b| - 1];
      TrimRightOfSpaces(rest, b[..|b| - 1]);
    } else {
      assert rest + b == rest;
    }
  }

  /** The characterisation of `Trim` is complete: surrounding a trimmed
      string with white space on either side and trimming gives it back. */
  lemma TrimOfPadded(a: string, t: string, b: string)
    requires AllSpace(a) && AllSpace(b) && IsTrimmed(t)
    ensures Trim(a + t + b) == t
  {
    if |t| == 0 {
      assert a + t + b == (a + b) + "";
      assert AllSpace(a + b);
      TrimLeftOfSpaces(a + b, "");
      assert TrimRight("") == "";
    } else {
      assert a + t + b == a + (t + b);
      assert (t + b)[0] == t[0];
      TrimLeftOfSpaces(a, t + b);
      TrimRightOfSpaces(t, b);
    }
  }

  /** A trimmed string is its own trim. */
  lemma TrimOfTrimmed(t: string)
    requires IsTrimmed(t)
    ensures Trim(t) == t
  {
    assert "" + t + "" == t;
    TrimOfPadded("", t, "");
  }

  /** Trimming twice is trimming once. */
  lemma TrimIdempotent(s: string)
    ensures Trim(Trim(s)) == Trim(s)
  {
    var t := Trim(s);
    assert "" + t + "" == t;
    TrimOfPadded("", t, "");
  }

  /** ASCII case folding of one character. */
  function LowerChar(c: char): char
  {
    if 'A' <= c <= 'Z' then (c as int + 32) as char else c
  }

  /** `strings.ToLower` on ASCII: folds every character, keeps the length. */
  function ToLower(s: string): (r: string)
    ensures |r| == |s|
    ensures forall i :: 0 <= i < |s| ==> r[i] == LowerChar(s[i])
  {
    if |s| == 0 then "" else [LowerChar(s[0])] + ToLower(s[1..])
  }

  /** Case-insensitive equality, character by character. */
  predicate EqualFold(a: string, b: string)
  {
    |a| == |b| && forall i :: 0 <= i < |a| ==> LowerChar(a[i]) == LowerChar(b[i])
  }
}
