/**
 * The handful of Python `str` operations the page relies on: `in`,
 * `endswith`, `lower`, `strip`, `replace('\n', '')` and `split(sep)[1]`.
 */
module Text {
  import opened Options
  import opened Seqs

  /** `needle` occurs in `hay` starting at index `i`. */
  predicate OccursAt(hay: string, needle: string, i: int)
  {
    0 <= i && i + |needle| <= |hay| && hay[i..i + |needle|] == needle
  }

  /** Python's `needle in hay` on strings. */
  predicate Contains(hay: string, needle: string)
  {
    exists i | 0 <= i <= |hay| - |needle| :: OccursAt(hay, needle, i)
  }

  /** Python's `any(k in hay for k in keys)`. */
  predicate ContainsAny(hay: string, keys: seq<string>)
  {
    exists k | k in keys :: Contains(hay, k)
  }

  /** Python's `s.endswith(suffix)`. */
  predicate EndsWith(s: string, suffix: string)
  {
    |suffix| <= |s| && s[|s| - |suffix|..] == suffix
  }

  /** `hay` is `needle` with `before` in front and `after` behind. */
  ghost predicate SplitsAround(hay: string, before: string, needle: string, after: string)
  {
    hay == before + needle + after
  }

  /** `needle in hay` holds exactly when `hay` can be cut into some text, `needle`, and some text. */
  lemma ContainsSplits(hay: string, needle: string)
    ensures Contains(hay, needle) <==> exists a, b :: SplitsAround(hay, a, needle, b)
  {
    if Contains(hay, needle) {
      var i :| 0 <= i <= |hay| - |needle| && OccursAt(hay, needle, i);
      assert hay == hay[..i] + hay[i..i + |needle|] + hay[i + |needle|..];
      assert SplitsAround(hay, hay[..i], needle, hay[i + |needle|..]);
    }
    if exists a, b :: SplitsAround(hay, a, needle, b) {
      var a, b :| SplitsAround(hay, a, needle, b);
      assert hay[|a|..|a| + |needle|] == needle;
      assert OccursAt(hay, needle, |a|);
    }
  }

  /** `any(k in hay for k in keys)` holds exactly when `hay` can be cut around one of the keys. */
  lemma ContainsAnySplits(hay: string, keys: seq<string>)
    ensures ContainsAny(hay, keys) <==> exists k, a, b :: k in keys && SplitsAround(hay, a, k, b)
  {
    if ContainsAny(hay, keys) {
      var k :| k in keys && Contains(hay, k);
      ContainsSplits(hay, k);
    }
    if exists k, a, b :: k in keys && SplitsAround(hay, a, k, b) {
      var k, a, b :| k in keys && SplitsAround(hay, a, k, b);
      ContainsSplits(hay, k);
    }
  }

  /** `s.endswith(suffix)` holds exactly when `s` is some text followed by `suffix`. */
  lemma EndsWithSplits(s: string, suffix: string)
    ensures EndsWith(s, suffix) <==> exists p :: SplitsAround(s, p, suffix, [])
  {
    if EndsWith(s, suffix) {
      assert SplitsAround(s, s[..|s| - |suffix|], suffix, []);
    }
    if exists p :: SplitsAround(s, p, suffix, []) {
      var p :| SplitsAround(s, p, suffix, []);
      assert s[|p|..] == suffix;
    }
  }

  /** A character of `needle` that `hay` never holds rules the substring test out. */
  lemma MissingCharRulesOut(hay: string, needle: string, c: char)
    requires c in needle && c !in hay
    ensures !Contains(hay, needle)
  {
    var j :| 0 <= j < |needle| && needle[j] == c;
    forall i | 0 <= i <= |hay| - |needle| ensures !OccursAt(hay, needle, i) {
      assert hay[i..i + |needle|][j] == hay[i + j];
      assert hay[i + j] in hay;
    }
  }

  predicate IsUpper(c: char)
  {
    'A' <= c <= 'Z'
  }

  /** Python's `str.lower()` on one character (ASCII letters only, see README). */
  function LowerChar(c: char): char
  {
    if IsUpper(c) then (c as int + 32) as char else c
  }

  /** Python's `s.lower()`. */
  function Lower(s: string): (r: string)
    ensures |r| == |s|
  {
    seq(|s|, i requires 0 <= i < |s| => LowerChar(s[i]))
  }

  /** `k` occurs in `s` when ASCII capitals are not told apart from small letters. */
  ghost predicate ContainsIgnoringCase(s: string, k: string)
  {
    exists i :: LowerOccursAt(s, k, i)
  }

  ghost predicate LowerOccursAt(s: string, k: string, i: int)
  {
    0 <= i <= |s| - |k| && Lower(s[i..i + |k|]) == Lower(k)
  }

  /**
   * Lower-casing turns every case-blind occurrence into a plain one: a tag
   * holding "Korean" or "KOREAN" holds "korean" once lowered.
   */
  lemma LowerKeepsMatch(s: string, k: string)
    requires ContainsIgnoringCase(s, k)
    ensures Contains(Lower(s), Lower(k))
  {
    var i :| LowerOccursAt(s, k, i);
    var ls := Lower(s);
    forall j | 0 <= j < |k| ensures ls[i..i + |k|][j] == Lower(k)[j] {
      assert Lower(s[i..i + |k|])[j] == LowerChar(s[i + j]);
    }
    assert OccursAt(ls, Lower(k), i);
  }

  /** Python's `str.isspace()` on one character: the whitespace that `strip()` removes. */
  predicate IsSpace(c: char)
  {
    || ('\t' <= c <= '\r')
    || ('\U{1C}' <= c <= ' ')
    || c == '\U{85}' || c == '\U{A0}' || c == '\U{1680}'
    || ('\U{2000}' <= c <= '\U{200A}')
    || c == '\U{2028}' || c == '\U{2029}' || c == '\U{202F}' || c == '\U{205F}' || c == '\U{3000}'
  }

  /** The index of the first non-whitespace character of `s` at or after `i` (or `|s|`). */
  function SkipSpaces(s: string, i: nat): (n: nat)
    requires i <= |s|
    ensures i <= n <= |s|
    ensures forall k :: i <= k < n ==> IsSpace(s[k])
    ensures n < |s| ==> !IsSpace(s[n])
    decreases |s| - i
  {
    if i < |s| && IsSpace(s[i]) then SkipSpaces(s, i + 1) else i
  }

  /** The end of `s[lo..j]` once its trailing whitespace is dropped. */
  function SkipSpacesBack(s: string, lo: nat, j: nat): (n: nat)
    requires lo <= j <= |s|
    ensures lo <= n <= j
    ensures forall k :: n <= k < j ==> IsSpace(s[k])
    ensures n > lo ==> !IsSpace(s[n - 1])
    decreases j
  {
    if j > lo && IsSpace(s[j - 1]) then SkipSpacesBack(s, lo, j - 1) else j
  }

  /** `r` is the slice of `s` at `i`, and everything of `s` around it is whitespace. */
  ghost predicate TrimmedFrom(s: string, r: string, i: int)
  {
    && 0 <= i <= |s| - |r|
    && s[i..i + |r|] == r
    && (forall k :: 0 <= k < i ==> IsSpace(s[k]))
    && (forall k :: i + |r| <= k < |s| ==> IsSpace(s[k]))
  }

  /**
   * Python's `s.strip()`: a middle slice of `s` that neither starts nor ends
   * with whitespace, with only whitespace cut away around it.
   */
  function Strip(s: string): (r: string)
    ensures r == [] || (!IsSpace(r[0]) && !IsSpace(r[|r| - 1]))
    ensures exists i :: TrimmedFrom(s, r, i)
  {
    var i := SkipSpaces(s, 0);
    var j := SkipSpacesBack(s, i, |s|);
    assert TrimmedFrom(s, s[i..j], i);
    s[i..j]
  }

  /** `strip()` of an already stripped string changes nothing. */
  lemma StripIdempotent(s: string)
    ensures Strip(Strip(s)) == Strip(s)
  {
    var r := Strip(s);
    if r != [] {
      assert SkipSpaces(r, 0) == 0;
      assert SkipSpacesBack(r, 0, |r|) == |r|;
    }
  }

  /** A string that neither starts nor ends with whitespace is its own `strip()`. */
  lemma StripClean(s: string)
    requires s == [] || (!IsSpace(s[0]) && !IsSpace(s[|s| - 1]))
    ensures Strip(s) == s
  {
    if s != [] {
      assert SkipSpaces(s, 0) == 0;
      assert SkipSpacesBack(s, 0, |s|) == |s|;
    }
  }

  /** `strip()` removes one space on either side of a clean string. */
  lemma StripPadded(s: string)
    requires s != [] && !IsSpace(s[0]) && !IsSpace(s[|s| - 1])
    ensures Strip(" " + s + " ") == s
  {
    var t := " " + s + " ";
    assert SkipSpaces(t, 1) == 1;
    assert SkipSpaces(t, 0) == 1;
    assert SkipSpacesBack(t, 1, |t| - 1) == |t| - 1;
    assert SkipSpacesBack(t, 1, |t|) == |t| - 1;
    assert t[1..|t| - 1] == s;
  }

  /** Whether `c` is not a line break. */
  predicate NotNewline(c: char)
  {
    c != '\n'
  }

  /** Python's `s.replace('\n', '')`. */
  function RemoveNewlines(s: string): (r: string)
    ensures '\n' !in r
    ensures forall c :: c in r <==> c in s && c != '\n'
  {
    Filter(NotNewline, s)
  }

  /**
   * `replace('\n', '')` keeps the other characters in order and each once:
   * the k-th character of the result is the one at the k-th position of `s`
   * that holds no line break.
   */
  lemma RemoveNewlinesKeepsOrder(s: string)
    ensures |RemoveNewlines(s)| == |Positions(NotNewline, s)|
    ensures forall k :: 0 <= k < |RemoveNewlines(s)| ==> RemoveNewlines(s)[k] == s[Positions(NotNewline, s)[k]]
  {
    FilterAtPositions(NotNewline, s);
  }

  /** A string without line breaks comes back from `replace('\n', '')` unchanged. */
  lemma RemoveNewlinesNoop(s: string)
    requires '\n' !in s
    ensures RemoveNewlines(s) == s
  {
    FilterAll(NotNewline, s);
  }

  /** `replace('\n', '')` joins the pieces around a single line break. */
  lemma RemoveNewlinesJoins(a: string, b: string)
    requires '\n' !in a && '\n' !in b
    ensures RemoveNewlines(a + "\n" + b) == a + b
  {
    assert a + "\n" + b == a + ['\n'] + b;
    FilterDrops(NotNewline, a, '\n', b);
    RemoveNewlinesNoop(a);
    RemoveNewlinesNoop(b);
  }

  /** Python's `s.find(sep, from)`: the first index at or after `from` where `sep` occurs. */
  function FindFrom(s: string, sep: string, from: nat): (r: Option<nat>)
    requires from <= |s|
    ensures r.Some? ==> from <= r.value && OccursAt(s, sep, r.value)
    ensures r.Some? ==> forall j :: from <= j < r.value ==> !OccursAt(s, sep, j)
    ensures r.None? ==> forall j :: from <= j ==> !OccursAt(s, sep, j)
    decreases |s| - from
  {
    if from + |sep| > |s| then None
    else if s[from..from + |sep|] == sep then Some(from)
    else if from == |s| then None
    else FindFrom(s, sep, from + 1)
  }

  /** A string that contains `sep` has a first occurrence of it. */
  lemma ContainsHasFirst(s: string, sep: string)
    requires Contains(s, sep)
    ensures FindFrom(s, sep, 0).Some?
  {
    var w :| 0 <= w <= |s| - |sep| && OccursAt(s, sep, w);
  }

  /**
   * `r` is the piece of `s` that starts right after the first `sep` (found
   * at `i`) and runs up to the next `sep` or to the end.
   */
  ghost predicate PieceAfterFirst(s: string, sep: string, i: int, r: string)
  {
    && OccursAt(s, sep, i)
    && (forall j :: 0 <= j < i ==> !OccursAt(s, sep, j))
    && i + |sep| + |r| <= |s|
    && s[i + |sep|..i + |sep| + |r|] == r
    && (i + |sep| + |r| == |s| || OccursAt(s, sep, i + |sep| + |r|))
  }

  /**
   * Python's `s.split(sep)[1]`: the piece between the first and the second
   * `sep` (or the rest of `s` when there is no second one). It holds no `sep`.
   */
  function SecondPiece(s: string, sep: string): (r: string)
    requires sep != [] && Contains(s, sep)
    ensures exists i :: PieceAfterFirst(s, sep, i, r)
    ensures !Contains(r, sep)
  {
    ContainsHasFirst(s, sep);
    var i := FindFrom(s, sep, 0).value;
    var end := match FindFrom(s, sep, i + |sep|) case None => |s| case Some(j) => j;
    PieceBetween(s, sep, i, end);
    s[i + |sep|..end]
  }

  /**
   * The text between an occurrence of `sep` at `i` and the next one at `end`
   * (or the end of `s`) holds no `sep`.
   */
  lemma PieceBetween(s: string, sep: string, i: nat, end: nat)
    requires sep != []
    requires OccursAt(s, sep, i) && forall j :: 0 <= j < i ==> !OccursAt(s, sep, j)
    requires i + |sep| <= end <= |s| && (end == |s| || OccursAt(s, sep, end))
    requires forall j :: i + |sep| <= j < end ==> !OccursAt(s, sep, j)
    ensures PieceAfterFirst(s, sep, i, s[i + |sep|..end])
    ensures !Contains(s[i + |sep|..end], sep)
  {
    var start := i + |sep|;
    var r := s[start..end];
    assert start + |r| == end;
    forall q | 0 <= q <= |r| - |sep| ensures !OccursAt(r, sep, q) {
      if OccursAt(r, sep, q) {
        var w := s[start + q..start + q + |sep|];
        forall m | 0 <= m < |sep| ensures w[m] == sep[m] {
          assert sep[m] == r[q..q + |sep|][m] == r[q + m];
        }
        assert w == sep;
        assert OccursAt(s, sep, start + q);
      }
    }
  }
}
