/** The JavaScript string operations the services rely on: `split` on one
    character, taking the last and the first piece, `includes`, and the
    `trim` and `lowercase` setters of the user schema. */
module Text {

  // ---------------------------------------------------------------- split

  /** `s.split(sep)` for a one-character separator: the runs of `s` between
      separators, in order. A string without the separator gives itself
      alone; the empty string gives one empty piece. */
  function Split(s: string, sep: char): (parts: seq<string>)
    ensures |parts| >= 1
    ensures forall i | 0 <= i < |parts| :: sep !in parts[i]
    ensures Join(parts, sep) == s
    decreases |s|
  {
    if |s| == 0 then [""]
    else
      var rest := Split(s[1..], sep);
      if s[0] == sep then [""] + rest
      else [[s[0]] + rest[0]] + rest[1..]
  }

  /** `parts.join(sep)`. */
  function Join(parts: seq<string>, sep: char): string
    requires |parts| >= 1
    decreases |parts|
  {
    if |parts| == 1 then parts[0] else parts[0] + [sep] + Join(parts[1..], sep)
  }

  lemma {:induction false} SplitPlain(p: string, sep: char)
    requires sep !in p
    ensures Split(p, sep) == [p]
    decreases |p|
  {
    if |p| > 0 {
      SplitPlain(p[1..], sep);
      assert [p[0]] + p[1..] == p;
    }
  }

  lemma {:induction false} SplitCons(p: string, t: string, sep: char)
    requires sep !in p
    ensures Split(p + [sep] + t, sep) == [p] + Split(t, sep)
    decreases |p|
  {
    var s := p + [sep] + t;
    if |p| == 0 {
      assert s[1..] == t;
    } else {
      assert s[1..] == p[1..] + [sep] + t;
      SplitCons(p[1..], t, sep);
      assert [p[0]] + p[1..] == p;
    }
  }

  /** Splitting undoes joining pieces that do not contain the separator. */
  lemma {:induction false} SplitJoin(parts: seq<string>, sep: char)
    requires |parts| >= 1
    requires forall i | 0 <= i < |parts| :: sep !in parts[i]
    ensures Split(Join(parts, sep), sep) == parts
    decreases |parts|
  {
    if |parts| == 1 {
      SplitPlain(parts[0], sep);
    } else {
      SplitJoin(parts[1..], sep);
      SplitCons(parts[0], Join(parts[1..], sep), sep);
      assert [parts[0]] + parts[1..] == parts;
    }
  }

  // ------------------------------------------------ first and last pieces

  /** `r` is what follows the last `sep` in `s` (all of `s` when there is
      none). */
  ghost predicate IsLastSegment(s: string, sep: char, r: string) {
    && |r| <= |s|
    && s[|s| - |r|..] == r
    && sep !in r
    && (|r| == |s| || s[|s| - |r| - 1] == sep)
  }

  /** `r` is what precedes the first `sep` in `s` (all of `s` when there is
      none). */
  ghost predicate IsFirstSegment(s: string, sep: char, r: string) {
    && |r| <= |s|
    && s[..|r|] == r
    && sep !in r
    && (|r| == |s| || s[|r|] == sep)
  }

  lemma {:induction false} SplitLast(s: string, sep: char)
    ensures var parts := Split(s, sep);
      && (|parts| == 1 ==> parts[0] == s)
      && (|parts| > 1 ==> |parts[|parts| - 1]| < |s|)
      && IsLastSegment(s, sep, parts[|parts| - 1])
    decreases |s|
  {
    if |s| > 0 {
      SplitLast(s[1..], sep);
      var rest := Split(s[1..], sep);
      var r := rest[|rest| - 1];
      if s[0] == sep {
        assert s[|s| - |r|..] == s[1..][|s| - 1 - |r|..];
      } else if |rest| > 1 {
        assert s[|s| - |r|..] == s[1..][|s| - 1 - |r|..];
        assert s[|s| - |r| - 1] == s[1..][|s| - 1 - |r| - 1];
      } else {
        assert [s[0]] + s[1..] == s;
      }
    }
  }

  lemma {:induction false} SplitFirst(s: string, sep: char)
    ensures IsFirstSegment(s, sep, Split(s, sep)[0])
    decreases |s|
  {
    if |s| > 0 && s[0] != sep {
      SplitFirst(s[1..], sep);
      var r := Split(s[1..], sep)[0];
      assert s[..|r| + 1] == [s[0]] + s[1..][..|r|];
    }
  }

  /** `s.split(sep).pop()`: the text after the last separator. */
  function LastSegment(s: string, sep: char): (r: string)
    ensures IsLastSegment(s, sep, r)
  {
    SplitLast(s, sep);
    var parts := Split(s, sep);
    parts[|parts| - 1]
  }

  /** `s.split(sep)[0]`: the text before the first separator. */
  function FirstSegment(s: string, sep: char): (r: string)
    ensures IsFirstSegment(s, sep, r)
  {
    SplitFirst(s, sep);
    Split(s, sep)[0]
  }

  /** `stem` is the file name `url` ends in, up to its first dot: the text
      after the last `/` of `url`, cut at the first `.`. */
  ghost predicate IsFileStem(url: string, stem: string) {
    exists k :: 0 <= k <= |url| && (k == 0 || url[k - 1] == '/') && '/' !in url[k..]
                && IsFirstSegment(url[k..], '.', stem)
  }

  /** `url.split("/").pop().split(".")[0]`. */
  function FileStem(url: string): (stem: string)
    ensures IsFileStem(url, stem)
  {
    var fileName := LastSegment(url, '/');
    var stem := FirstSegment(fileName, '.');
    assert url[|url| - |fileName|..] == fileName;
    assert IsFileStem(url, stem) by {
      var k := |url| - |fileName|;
      assert 0 <= k <= |url| && (k == 0 || url[k - 1] == '/') && '/' !in url[k..];
    }
    stem
  }

  // ------------------------------------------------------------- includes

  ghost predicate OccursAt(s: string, sub: string, i: int) {
    0 <= i && i + |sub| <= |s| && s[i..i + |sub|] == sub
  }

  /** `s.includes(sub)`. */
  function Contains(s: string, sub: string): (b: bool)
    ensures b <==> exists i :: OccursAt(s, sub, i)
    decreases |s|
  {
    if |sub| > |s| then false
    else if s[..|sub|] == sub then
      assert OccursAt(s, sub, 0);
      true
    else
      var b := Contains(s[1..], sub);
      assert forall i | OccursAt(s[1..], sub, i) :: OccursAt(s, sub, i + 1) by {
        forall i | OccursAt(s[1..], sub, i)
          ensures OccursAt(s, sub, i + 1)
        {
          assert s[1..][i..i + |sub|] == s[i + 1..i + 1 + |sub|];
        }
      }
      assert forall i | OccursAt(s, sub, i) :: OccursAt(s[1..], sub, i - 1) by {
        forall i | OccursAt(s, sub, i)
          ensures OccursAt(s[1..], sub, i - 1)
        {
          assert i != 0;
          assert s[1..][i - 1..i - 1 + |sub|] == s[i..i + |sub|];
        }
      }
      b
  }

  // ----------------------------------------------------------------- trim

  /** The characters `String.prototype.trim` removes: white space and line
      terminators. */
  predicate IsSpace(c: char) {
    || c == ' '
    || '\t' <= c <= '\r'
    || c == '\U{A0}'
    || c == '\U{1680}'
    || '\U{2000}' <= c <= '\U{200A}'
    || c == '\U{2028}'
    || c == '\U{2029}'
    || c == '\U{202F}'
    || c == '\U{205F}'
    || c == '\U{3000}'
    || c == '\U{FEFF}'
  }

  ghost predicate AllSpace(s: string) {
    forall i | 0 <= i < |s| :: IsSpace(s[i])
  }

  /** Neither end of `s` is white space. */
  predicate IsTrimmed(s: string) {
    |s| == 0 || (!IsSpace(s[0]) && !IsSpace(s[|s| - 1]))
  }

  /** `r` sits at offset `k` of `s` with only white space around it. */
  ghost predicate TrimmedFrom(s: string, r: string, k: int) {
    && 0 <= k && k + |r| <= |s|
    && s[k..k + |r|] == r
    && AllSpace(s[..k])
    && AllSpace(s[k + |r|..])
  }

  /** The first index at or after `i` that does not hold white space
      (`|s|` when there is none). */
  function SkipSpace(s: string, i: nat): (n: nat)
    requires i <= |s|
    ensures i <= n <= |s|
    ensures forall j | i <= j < n :: IsSpace(s[j])
    ensures n == |s| || !IsSpace(s[n])
    decreases |s| - i
  {
    if i < |s| && IsSpace(s[i]) then SkipSpace(s, i + 1) else i
  }

  /** The end of `s[lo..hi]` once white space is stripped from its right:
      everything from the result up to `hi` is white space. */
  function SkipSpaceBack(s: string, lo: nat, hi: nat): (m: nat)
    requires lo <= hi <= |s|
    ensures lo <= m <= hi
    ensures forall j | m <= j < hi :: IsSpace(s[j])
    ensures m == lo || !IsSpace(s[m - 1])
    decreases hi
  {
    if lo < hi && IsSpace(s[hi - 1]) then SkipSpaceBack(s, lo, hi - 1) else hi
  }

  /** `s.trim()`: `s` without its leading and trailing white space. */
  function Trim(s: string): (r: string)
    ensures IsTrimmed(r)
    ensures exists k :: TrimmedFrom(s, r, k)
  {
    var start := SkipSpace(s, 0);
    var end := SkipSpaceBack(s, start, |s|);
    assert TrimmedFrom(s, s[start..end], start);
    s[start..end]
  }

  /** A trimmed string is left alone by `trim`, so trimming twice is
      trimming once. */
  lemma TrimTrimmed(s: string)
    requires IsTrimmed(s)
    ensures Trim(s) == s
  {
    var start := SkipSpace(s, 0);
    assert start == 0 by {
      assert start == |s| || !IsSpace(s[start]);
    }
    var end := SkipSpaceBack(s, 0, |s|);
    assert end == |s|;
  }

  /** Text of white space alone trims to nothing. */
  lemma TrimBlank(s: string)
    requires AllSpace(s)
    ensures Trim(s) == ""
  {
    var r := Trim(s);
    var k :| TrimmedFrom(s, r, k);
  }

  lemma TrimIdempotent(s: string)
    ensures Trim(Trim(s)) == Trim(s)
  {
    TrimTrimmed(Trim(s));
  }

  // ------------------------------------------------------------ lowercase

  /** ASCII capitals to small letters, every other character unchanged. */
  function LowerChar(c: char): (d: char)
    ensures !('A' <= d <= 'Z')
    ensures 'A' <= c <= 'Z' ==> d as int == c as int + 32
    ensures !('A' <= c <= 'Z') ==> d == c
  {
    if 'A' <= c <= 'Z' then (c as int + 32) as char else c
  }

  /** No ASCII capital in `s`. */
  predicate IsLower(s: string) {
    forall i | 0 <= i < |s| :: !('A' <= s[i] <= 'Z')
  }

  /** `s.toLowerCase()`, for the ASCII letters. */
  function Lower(s: string): (r: string)
    ensures |r| == |s| && IsLower(r)
    ensures forall i | 0 <= i < |s| :: r[i] == LowerChar(s[i])
  {
    seq(|s|, i requires 0 <= i < |s| => LowerChar(s[i]))
  }

  /** A string already in lower case is its own lower case. */
  lemma LowerLower(s: string)
    requires IsLower(s)
    ensures Lower(s) == s
  {
  }
}
