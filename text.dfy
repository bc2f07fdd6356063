/** The two string operations the e-mail check relies on, with Python's meaning:
    `strip()` without arguments and `split(sep)` on a one-character separator. */
module Text {

  /** The characters Python's `str.isspace` accepts, which `strip()` removes. */
  predicate IsSpace(c: char)
  {
    || c == ' ' || c == '\t' || c == '\n' || c == '\r'
    || c == '\U{000B}' || c == '\U{000C}'
    || c == '\U{001C}' || c == '\U{001D}' || c == '\U{001E}' || c == '\U{001F}'
    || c == '\U{0085}' || c == '\U{00A0}' || c == '\U{1680}'
    || ('\U{2000}' <= c <= '\U{200A}')
    || c == '\U{2028}' || c == '\U{2029}' || c == '\U{202F}' || c == '\U{205F}' || c == '\U{3000}'
  }

  predicate AllSpace(s: string)
  {
    forall i :: 0 <= i < |s| ==> IsSpace(s[i])
  }

  /** The index of the first non-whitespace character of s at or after i, or |s| if there is none:
      everything skipped is whitespace. */
  function SkipSpace(s: string, i: nat): (k: nat)
    requires i <= |s|
    ensures i <= k <= |s|
    ensures forall j :: i <= j < k ==> IsSpace(s[j])
    ensures k < |s| ==> !IsSpace(s[k])
    decreases |s| - i
  {
    if i < |s| && IsSpace(s[i]) then SkipSpace(s, i + 1) else i
  }

  /** The index just past the last non-whitespace character of s below e, or b if s[b..e] is all
      whitespace: everything skipped is whitespace. */
  function SkipSpaceBack(s: string, b: nat, e: nat): (k: nat)
    requires b <= e <= |s|
    ensures b <= k <= e
    ensures forall j :: k <= j < e ==> IsSpace(s[j])
    ensures k > b ==> !IsSpace(s[k - 1])
    decreases e
  {
    if e > b && IsSpace(s[e - 1]) then SkipSpaceBack(s, b, e - 1) else e
  }

  /** Python's `s.strip()`: the result neither begins nor ends with whitespace. */
  function Strip(s: string): (r: string)
    ensures |r| <= |s|
    ensures r == [] || (!IsSpace(r[0]) && !IsSpace(r[|r| - 1]))
  {
    var b := SkipSpace(s, 0);
    s[b..SkipSpaceBack(s, b, |s|)]
  }

  /** `Strip(s)` is the slice of s that starts at its first non-whitespace character, and what it
      drops in front and behind is whitespace. */
  lemma StripIsInnerSlice(s: string)
    ensures
      var r, b := Strip(s), SkipSpace(s, 0);
      && b + |r| <= |s| && r == s[b..b + |r|]
      && AllSpace(s[..b]) && AllSpace(s[b + |r|..])
  {
    var b := SkipSpace(s, 0);
    var e := SkipSpaceBack(s, b, |s|);
    assert forall j :: 0 <= j < b ==> s[..b][j] == s[j];
    assert forall j :: 0 <= j < |s| - e ==> s[e..][j] == s[e + j];
  }

  /** Strip is determined by what it promises: whenever s is whitespace, then a text that neither
      begins nor ends with whitespace, then whitespace, the strip of s is that middle text. */
  lemma StripCharacterised(pre: string, mid: string, post: string)
    requires AllSpace(pre) && AllSpace(post)
    requires mid == [] || (!IsSpace(mid[0]) && !IsSpace(mid[|mid| - 1]))
    ensures Strip(pre + mid + post) == mid
  {
    var s := pre + mid + post;
    var b := SkipSpace(s, 0);
    var e := SkipSpaceBack(s, b, |s|);
    var m := |pre| + |mid|;
    assert forall j :: 0 <= j < |pre| ==> s[j] == pre[j];
    assert forall j :: m <= j < |s| ==> s[j] == post[j - m];
    if mid == [] {
      assert b == |s|;
    } else {
      assert s[|pre|] == mid[0] && s[m - 1] == mid[|mid| - 1];
      assert b == |pre|;
      assert e == m;
      assert s[b..e] == mid;
    }
  }

  /** A string that neither begins nor ends with whitespace is its own strip. */
  lemma StripUntrimmed(s: string)
    requires s == [] || (!IsSpace(s[0]) && !IsSpace(s[|s| - 1]))
    ensures Strip(s) == s
  {
  }

  /** Stripping twice is stripping once. */
  lemma StripIdempotent(s: string)
    ensures Strip(Strip(s)) == Strip(s)
  {
    StripUntrimmed(Strip(s));
  }

  /** The number of occurrences of c in s. */
  function Count(s: string, c: char): nat
  {
    if |s| == 0 then 0 else (if s[0] == c then 1 else 0) + Count(s[1..], c)
  }

  lemma CountZero(s: string, c: char)
    ensures Count(s, c) == 0 <==> c !in s
  {
    if |s| > 0 {
      CountZero(s[1..], c);
      assert s == [s[0]] + s[1..];
    }
  }

  /** Python's `s.split(c)`: the pieces between the occurrences of c, one more than there are
      occurrences, none of them containing c. */
  function Split(s: string, c: char): (parts: seq<string>)
    ensures |parts| == Count(s, c) + 1
    ensures forall i :: 0 <= i < |parts| ==> c !in parts[i]
  {
    if |s| == 0 then [""]
    else
      var rest := Split(s[1..], c);
      if s[0] == c then [""] + rest
      else [[s[0]] + rest[0]] + rest[1..]
  }

  /** Python's `c.join(parts)`. */
  function Join(parts: seq<string>, c: char): string
    requires |parts| >= 1
  {
    if |parts| == 1 then parts[0] else parts[0] + [c] + Join(parts[1..], c)
  }

  /** Joining the pieces of a split gives the string back. */
  lemma {:induction false} JoinSplit(s: string, c: char)
    ensures Join(Split(s, c), c) == s
  {
    if |s| > 0 {
      JoinSplit(s[1..], c);
      var rest := Split(s[1..], c);
      if s[0] != c {
        if |rest| == 1 {
          assert Join(Split(s, c), c) == [s[0]] + rest[0];
        } else {
          assert Join(Split(s, c), c) == [s[0]] + rest[0] + [c] + Join(rest[1..], c);
        }
        assert s == [s[0]] + s[1..];
      }
    }
  }

  /** Splitting the join of pieces that do not contain c gives the pieces back. */
  lemma {:induction false} SplitJoin(parts: seq<string>, c: char)
    requires |parts| >= 1
    requires forall i :: 0 <= i < |parts| ==> c !in parts[i]
    ensures Split(Join(parts, c), c) == parts
    decreases |parts|, |parts[0]|
  {
    var p := parts[0];
    if |p| > 0 {
      var tail := [p[1..]] + parts[1..];
      assert forall i :: 1 <= i < |tail| ==> tail[i] == parts[i];
      SplitJoin(tail, c);
      JoinDropFirst(parts, c);
      assert [p[0]] + p[1..] == p;
      assert parts == [p] + tail[1..];
    } else if |parts| > 1 {
      SplitJoin(parts[1..], c);
      JoinEmptyHead(parts, c);
      assert parts == [""] + parts[1..];
    }
  }

  /** The join of pieces whose first piece is not empty starts with that piece's first character,
      followed by the join with that character taken off. */
  lemma JoinDropFirst(parts: seq<string>, c: char)
    requires |parts| >= 1 && |parts[0]| > 0
    ensures |Join(parts, c)| > 0
    ensures Join(parts, c)[0] == parts[0][0]
    ensures Join(parts, c)[1..] == Join([parts[0][1..]] + parts[1..], c)
  {
    var p := parts[0];
    var tail := [p[1..]] + parts[1..];
    if |parts| > 1 {
      assert tail[1..] == parts[1..];
      assert Join(parts, c) == [p[0]] + (p[1..] + [c] + Join(parts[1..], c));
    }
  }

  /** The join of pieces whose first piece is empty starts with the separator, followed by the
      join of the other pieces. */
  lemma JoinEmptyHead(parts: seq<string>, c: char)
    requires |parts| > 1 && parts[0] == []
    ensures |Join(parts, c)| > 0
    ensures Join(parts, c)[0] == c
    ensures Join(parts, c)[1..] == Join(parts[1..], c)
  {
    assert Join(parts, c) == [c] + Join(parts[1..], c);
  }

  /** A string splits into exactly two pieces on c iff c occurs in it exactly once; the pieces
      are then what comes before and after that occurrence. */
  lemma SplitInTwo(s: string, c: char)
    ensures |Split(s, c)| == 2 <==> exists i :: 0 <= i < |s| && s[i] == c && c !in s[..i] && c !in s[i + 1..]
    ensures forall i :: 0 <= i < |s| && s[i] == c && c !in s[..i] && c !in s[i + 1..] ==>
      Split(s, c) == [s[..i], s[i + 1..]]
  {
    forall i | 0 <= i < |s| && s[i] == c && c !in s[..i] && c !in s[i + 1..]
      ensures Split(s, c) == [s[..i], s[i + 1..]]
    {
      var parts := [s[..i], s[i + 1..]];
      assert Join(parts, c) == s;
      SplitJoin(parts, c);
    }
    if |Split(s, c)| == 2 {
      var parts := Split(s, c);
      JoinSplit(s, c);
      var i := |parts[0]|;
      assert s == parts[0] + [c] + parts[1];
      assert s[..i] == parts[0] && s[i + 1..] == parts[1];
    }
  }
}
