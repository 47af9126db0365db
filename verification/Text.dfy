/** Lower-casing, case-insensitive comparison and trimming, for text whose letters are ASCII. */
module Text {

  function LowerChar(c: char): char {
    if 'A' <= c <= 'Z' then (c as int + 32) as char else c
  }

  function Lower(s: string): (r: string)
    ensures |r| == |s| && forall i :: 0 <= i < |s| ==> r[i] == LowerChar(s[i])
  {
    seq(|s|, i requires 0 <= i < |s| => LowerChar(s[i]))
  }

  /** The comparison strings.EqualFold makes: the same letters, case ignored. */
  predicate FoldsTo(x: char, y: char) {
    || x == y
    || ('A' <= x <= 'Z' && y as int == x as int + 32)
    || ('A' <= y <= 'Z' && x as int == y as int + 32)
  }

  predicate EqualFold(a: string, b: string) {
    |a| == |b| && forall i :: 0 <= i < |a| ==> FoldsTo(a[i], b[i])
  }

  lemma EqualFoldIsLowerEqual(a: string, b: string)
    ensures EqualFold(a, b) <==> Lower(a) == Lower(b)
  {
    if Lower(a) == Lower(b) {
      forall i | 0 <= i < |a| ensures FoldsTo(a[i], b[i]) {
        assert Lower(a)[i] == Lower(b)[i];
      }
    }
  }

  lemma LowerIdempotent(s: string)
    ensures Lower(Lower(s)) == Lower(s)
  {
  }

  predicate IsSpace(c: char) {
    var n := c as int;
    || 9 <= n <= 13 || n == 0x20 || n == 0x85 || n == 0xA0 || n == 0x1680 || 0x2000 <= n <= 0x200A
    || n == 0x2028 || n == 0x2029 || n == 0x202F || n == 0x205F || n == 0x3000
  }

  function TrimSpace(s: string): string {
    if s != [] && IsSpace(s[0]) then TrimSpace(s[1..])
    else if s != [] && IsSpace(s[|s| - 1]) then TrimSpace(s[..|s| - 1])
    else s
  }

  lemma {:induction false} TrimSpaceShrinks(s: string)
    ensures |TrimSpace(s)| <= |s|
  {
    if s != [] && IsSpace(s[0]) {
      TrimSpaceShrinks(s[1..]);
    } else if s != [] && IsSpace(s[|s| - 1]) {
      TrimSpaceShrinks(s[..|s| - 1]);
    }
  }

  predicate Trimmed(s: string) {
    s == [] || (!IsSpace(s[0]) && !IsSpace(s[|s| - 1]))
  }

  lemma TrimmedIsFixed(s: string)
    ensures TrimSpace(s) == s <==> Trimmed(s)
  {
    if s != [] && IsSpace(s[0]) {
      TrimSpaceShrinks(s[1..]);
    } else if s != [] && IsSpace(s[|s| - 1]) {
      TrimSpaceShrinks(s[..|s| - 1]);
    }
  }

  lemma FoldKeepsTrimmed(a: string, b: string)
    requires EqualFold(a, b)
    ensures Trimmed(a) <==> Trimmed(b)
  {
  }

  ghost predicate AllSpace(s: string) { forall i :: 0 <= i < |s| ==> IsSpace(s[i]) }

  /** Trimming takes white space off both ends, all of it, and nothing else. */
  lemma {:induction false} TrimSpaceMiddle(s: string) returns (before: string, after: string)
    ensures s == before + TrimSpace(s) + after && AllSpace(before) && AllSpace(after) && Trimmed(TrimSpace(s))
  {
    if s != [] && IsSpace(s[0]) {
      before, after := TrimSpaceMiddle(s[1..]);
      before := [s[0]] + before;
    } else if s != [] && IsSpace(s[|s| - 1]) {
      before, after := TrimSpaceMiddle(s[..|s| - 1]);
      after := after + [s[|s| - 1]];
    } else {
      before, after := "", "";
    }
  }

  /** So trimming leaves nothing exactly of text that is all white space. */
  lemma TrimSpaceEmpty(s: string)
    ensures TrimSpace(s) == "" <==> AllSpace(s)
  {
    var before, after := TrimSpaceMiddle(s);
    if TrimSpace(s) == "" {
      assert s == before + after;
    } else {
      assert s[|before|] == TrimSpace(s)[0];
    }
  }
}
