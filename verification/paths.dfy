/**
 Path-string helpers the controller relies on: POSIX `os.path.splitext`,
 `os.path.basename` and an ASCII-only `str.lower`, all on `seq<char>`.
 */
module Paths {

  /** Index of the last occurrence of `c` in `s`, or -1 when there is none
      (Python's `str.rfind` for a single character). */
  function RFind(s: string, c: char): (r: int)
    ensures -1 <= r < |s|
    ensures r >= 0 ==> s[r] == c
    ensures forall k :: r < k < |s| ==> s[k] != c
    decreases |s|
  {
    if |s| == 0 then -1
    else if s[|s| - 1] == c then |s| - 1
    else RFind(s[..|s| - 1], c)
  }

  /** Index where the final path component starts: just after the last '/'. */
  function BaseStart(p: string): (i: nat)
    ensures i <= |p|
    ensures i > 0 ==> p[i - 1] == '/'
    ensures forall k :: i <= k < |p| ==> p[k] != '/'
  {
    RFind(p, '/') + 1
  }

  /** First index in [from, to) that does not hold a '.', or `to` when the
      whole range is dots: the leading-dot scan of `splitext`. */
  function FirstNonDot(p: string, from: nat, to: nat): (r: nat)
    requires from <= to <= |p|
    ensures from <= r <= to
    ensures forall k :: from <= k < r ==> p[k] == '.'
    ensures r < to ==> p[r] != '.'
    decreases (to as int) - (from as int)
  {
    if from == to then to
    else if p[from] != '.' then from
    else FirstNonDot(p, from + 1, to)
  }

  /** POSIX `os.path.splitext`: split `p` at the last '.' of its final
      component, unless everything in that component before the dot is a dot
      (so ".bashrc" and "..x" have no extension). Returns (root, ext). */
  function SplitExt(p: string): (r: (string, string))
    ensures PosixSplit(p, r.0, r.1)
  {
    var sep := RFind(p, '/');
    var dot := RFind(p, '.');
    if dot > sep && FirstNonDot(p, sep + 1, dot) < dot then
      (p[..dot], p[dot..])
    else
      (p, "")
  }

  /** The extension part of `p`, including its leading dot (or empty). */
  function Ext(p: string): string
  {
    SplitExt(p).1
  }

  /** Everything of `p` but its extension. */
  function Root(p: string): string
  {
    SplitExt(p).0
  }

  /** POSIX `os.path.basename`: the text after the last '/'. */
  function Basename(p: string): (r: string)
    ensures forall k :: 0 <= k < |r| ==> r[k] != '/'
    ensures |r| <= |p| && p == p[..|p| - |r|] + r
    ensures |r| < |p| ==> p[|p| - |r| - 1] == '/'
  {
    p[BaseStart(p)..]
  }

  predicate IsUpper(c: char)
  {
    'A' <= c <= 'Z'
  }

  predicate IsLowerLetter(c: char)
  {
    'a' <= c <= 'z'
  }

  function LowerChar(c: char): char
  {
    if IsUpper(c) then (c as int + 32) as char else c
  }

  function UpperChar(c: char): char
  {
    if IsLowerLetter(c) then (c as int - 32) as char else c
  }

  /** `str.lower()` restricted to ASCII: 'A'..'Z' become 'a'..'z', every
      other character is kept. */
  function Lower(s: string): (r: string)
    ensures |r| == |s|
    ensures forall k :: 0 <= k < |r| ==> !IsUpper(r[k])
    ensures forall k :: 0 <= k < |s| ==>
      r[k] == s[k] || (IsUpper(s[k]) && r[k] as int == s[k] as int + 32)
  {
    seq(|s|, k requires 0 <= k < |s| => LowerChar(s[k]))
  }

  /** `s` spells `word` in some mixture of letter cases, stated through
      upper-casing the (lower-case) target rather than lower-casing `s`. */
  predicate SpelledIgnoringCase(s: string, word: string)
  {
    |s| == |word| &&
    forall k :: 0 <= k < |s| ==> s[k] == word[k] || s[k] == UpperChar(word[k])
  }

  /** Comparing the lower-cased text with a word that holds no upper-case
      letter is the same as accepting every case spelling of that word. */
  lemma LowerEqualsIff(s: string, word: string)
    requires forall k :: 0 <= k < |word| ==> !IsUpper(word[k])
    ensures Lower(s) == word <==> SpelledIgnoringCase(s, word)
  {
    if Lower(s) == word {
      forall k | 0 <= k < |s|
        ensures s[k] == word[k] || s[k] == UpperChar(word[k])
      {
        assert Lower(s)[k] == word[k];
      }
    }
    if SpelledIgnoringCase(s, word) {
      forall k | 0 <= k < |s|
        ensures Lower(s)[k] == word[k]
      {
      }
    }
  }

  /** The POSIX `splitext` rule: `p` is `root + ext`, and `ext` is either
      empty or the suffix from the last '.' of the final component, which
      must have some non-dot character before that '.'; `ext` is empty only
      when every '.' of the final component belongs to its leading dots. */
  ghost predicate PosixSplit(p: string, root: string, ext: string)
  {
    && root + ext == p
    && (ext != "" ==> ext[0] == '.')
    && (forall k :: 0 < k < |ext| ==> ext[k] != '.' && ext[k] != '/')
    && (ext != "" ==> exists k :: BaseStart(p) <= k < |root| && root[k] != '.')
    && (ext == "" ==> DotsOnlyLeading(p))
  }

  /** Every '.' of the final component of `p` is one of its leading dots. */
  ghost predicate DotsOnlyLeading(p: string)
  {
    forall j, k :: BaseStart(p) <= j < k < |p| && p[k] == '.' ==> p[j] == '.'
  }

  /** `SplitExt` is the only split obeying the POSIX rule. */
  lemma SplitExtUnique(p: string, root: string, ext: string)
    requires PosixSplit(p, root, ext)
    ensures SplitExt(p) == (root, ext)
  {
    var (r, e) := SplitExt(p);
    assert PosixSplit(p, r, e);
    if ext != "" && e != "" {
      SuffixesAgree(p, ext, e);
    } else if ext != "" {
      NoExtContradiction(p, root, ext);
    } else if e != "" {
      NoExtContradiction(p, r, e);
    } else {
      assert root == root + ext == p == r + e == r;
    }
  }

  /** Two dot-led suffixes of `p` with no further dot are the same suffix. */
  lemma SuffixesAgree(p: string, e: string, e': string)
    requires |e| <= |p| && |e'| <= |p|
    requires p[|p| - |e|..] == e && p[|p| - |e'|..] == e'
    requires e != "" && e[0] == '.' && forall k :: 0 < k < |e| ==> e[k] != '.'
    requires e' != "" && e'[0] == '.' && forall k :: 0 < k < |e'| ==> e'[k] != '.'
    ensures e == e'
  {
  }

  /** A non-empty extension rules out the "no extension" condition. */
  lemma NoExtContradiction(p: string, root: string, ext: string)
    requires root + ext == p && ext != "" && ext[0] == '.'
    requires exists k :: BaseStart(p) <= k < |root| && root[k] != '.'
    ensures !DotsOnlyLeading(p)
  {
    var w :| BaseStart(p) <= w < |root| && root[w] != '.';
    assert p[w] == root[w];
    assert p[|root|] == ext[0];
  }

  /** A plain file name with a single dot-led extension splits at that dot. */
  lemma SplitPlainName(name: string, ext: string)
    requires name != "" && forall k :: 0 <= k < |name| ==> name[k] != '.' && name[k] != '/'
    requires ext != "" && ext[0] == '.'
    requires forall k :: 0 < k < |ext| ==> ext[k] != '.' && ext[k] != '/'
    ensures SplitExt(name + ext) == (name, ext)
  {
    var p := name + ext;
    forall k | 0 <= k < |p|
      ensures p[k] != '/'
    {
      if k >= |name| {
        assert p[k] == ext[k - |name|];
      }
    }
    assert BaseStart(p) == 0;
    assert name[0] != '.';
    assert PosixSplit(p, name, ext);
    SplitExtUnique(p, name, ext);
  }
}
