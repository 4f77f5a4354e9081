/** The string clean-up that `_extract_with_olefile` applies to the decoded
    `WordDocument` stream: two regular-expression substitutions, each deleting
    what it matches. */
module OleCleanup {
  import opened PyText

  /** The characters the class `[^\x20\x7E\r\n]` does NOT match. The class lists
      four single characters (space, '~', carriage return, line feed); it is not
      the printable range from space to '~'. */
  predicate Listed(c: char) {
    c == ' ' || c == '~' || c == '\r' || c == '\n'
  }

  /** `re.sub(r'[^\x20\x7E\r\n]', '', s)`: every character outside the four
      listed ones is deleted. */
  function KeepListed(s: string): (r: string)
    ensures |r| <= |s|
    ensures forall i :: 0 <= i < |r| ==> Listed(r[i])
  {
    if s == [] then []
    else (if Listed(s[0]) then [s[0]] else []) + KeepListed(s[1..])
  }

  /** `re.sub(r'\s+', '', s)`, scanning left to right as the regular-expression
      engine does: each maximal run of whitespace is replaced by the empty
      string. */
  function DeleteSpaceRuns(s: string): (r: string)
    ensures |r| <= |s|
    ensures forall i :: 0 <= i < |r| ==> !IsSpace(r[i])
    decreases |s|
  {
    if s == [] then []
    else if IsSpace(s[0]) then
      var rest := TrimStart(s);
      TrimStartIsSuffix(s);
      assert |rest| < |s|;
      DeleteSpaceRuns(rest)
    else [s[0]] + DeleteSpaceRuns(s[1..])
  }

  /** The same deletion, one character at a time: the characters of `s` that are
      not whitespace, in order. */
  function NonSpace(s: string): string {
    if s == [] then [] else (if IsSpace(s[0]) then [] else [s[0]]) + NonSpace(s[1..])
  }

  /** The clean-up of lines 180 and 182: the result holds nothing but '~'. */
  function Cleanup(s: string): (r: string)
    ensures |r| <= |s|
    ensures forall i :: 0 <= i < |r| ==> r[i] == '~'
  {
    var listed := KeepListed(s);
    DeleteSpaceRunsIsNonSpace(listed);
    NonSpaceOfListed(listed);
    DeleteSpaceRuns(listed)
  }

  /** `n` tilde characters. */
  function Tildes(n: nat): (r: string)
    ensures |r| == n && forall i :: 0 <= i < n ==> r[i] == '~'
  {
    seq(n, _ => '~')
  }

  lemma {:induction false} NonSpaceAppend(a: string, b: string)
    ensures NonSpace(a + b) == NonSpace(a) + NonSpace(b)
  {
    if a != [] {
      assert (a + b)[1..] == a[1..] + b;
      NonSpaceAppend(a[1..], b);
    } else {
      assert a + b == b;
    }
  }

  lemma {:induction false} NonSpaceOfBlank(s: string)
    requires IsBlank(s)
    ensures NonSpace(s) == []
  {
    if s != [] {
      NonSpaceOfBlank(s[1..]);
    }
  }

  /** Deleting whole whitespace runs is the same as deleting every whitespace
      character on its own. */
  lemma {:induction false} DeleteSpaceRunsIsNonSpace(s: string)
    ensures DeleteSpaceRuns(s) == NonSpace(s)
    decreases |s|
  {
    if s == [] {
    } else if IsSpace(s[0]) {
      var rest := TrimStart(s);
      TrimStartIsSuffix(s);
      var k := |s| - |rest|;
      assert s == s[..k] + rest;
      NonSpaceAppend(s[..k], rest);
      NonSpaceOfBlank(s[..k]);
      DeleteSpaceRunsIsNonSpace(rest);
    } else {
      DeleteSpaceRunsIsNonSpace(s[1..]);
    }
  }

  /** Line 180 keeps exactly the listed characters, so the number of '~' in
      its output is that of its input. */
  lemma {:induction false} KeepListedKeepsTildes(s: string)
    ensures multiset(KeepListed(s))['~'] == multiset(s)['~']
  {
    if s != [] {
      KeepListedKeepsTildes(s[1..]);
      assert s == [s[0]] + s[1..];
    }
  }

  /** On text made only of listed characters, line 182 leaves exactly its '~'
      characters. */
  lemma {:induction false} NonSpaceOfListed(s: string)
    requires forall i :: 0 <= i < |s| ==> Listed(s[i])
    ensures NonSpace(s) == Tildes(multiset(s)['~'])
  {
    if s != [] {
      var m := multiset(s[1..])['~'];
      NonSpaceOfListed(s[1..]);
      assert s == [s[0]] + s[1..];
      assert multiset(s) == multiset([s[0]]) + multiset(s[1..]);
      if s[0] == '~' {
        assert multiset(s)['~'] == m + 1;
        assert Tildes(m + 1) == ['~'] + Tildes(m);
      } else {
        assert IsSpace(s[0]);
        assert multiset(s)['~'] == m;
      }
    }
  }

  /** The clean-up is determined by one number: it turns any decoded stream
      into as many '~' as the stream contains. */
  lemma CleanupIsTildeCount(s: string)
    ensures Cleanup(s) == Tildes(multiset(s)['~'])
  {
    var listed := KeepListed(s);
    DeleteSpaceRunsIsNonSpace(listed);
    NonSpaceOfListed(listed);
    KeepListedKeepsTildes(s);
  }

  /** Cleaning an already cleaned text changes nothing. */
  lemma CleanupIdempotent(s: string)
    ensures Cleanup(Cleanup(s)) == Cleanup(s)
  {
    CleanupIsTildeCount(s);
    var n := multiset(s)['~'];
    CleanupIsTildeCount(Tildes(n));
    assert multiset(Tildes(n))['~'] == n by {
      TildesCount(n);
    }
  }

  lemma {:induction false} TildesCount(n: nat)
    ensures multiset(Tildes(n))['~'] == n
  {
    if n > 0 {
      TildesCount(n - 1);
      assert Tildes(n) == Tildes(n - 1) + ['~'];
    }
  }
}
