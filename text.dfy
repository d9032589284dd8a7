/** Models of the Python `str` and list operations the thread writer relies on:
    `strip()`, `split(sep)`, `split()`, `sep.join(...)`, `xs[:n]`, `[x] * n` and `str(i)`.
    Lengths are counted in code points, as Python's `len` does. */
module PyStr {

  /** The code points Python's `str.isspace()` accepts; `strip()` and `split()` drop exactly these. */
  predicate IsWhitespace(c: char) {
    || ('\U{9}' <= c <= '\U{D}')
    || ('\U{1C}' <= c <= '\U{20}')
    || c == '\U{85}' || c == '\U{A0}' || c == '\U{1680}'
    || ('\U{2000}' <= c <= '\U{200A}')
    || c == '\U{2028}' || c == '\U{2029}' || c == '\U{202F}' || c == '\U{205F}' || c == '\U{3000}'
  }

  predicate AllWhitespace(s: string) {
    forall k :: 0 <= k < |s| ==> IsWhitespace(s[k])
  }

  /** No whitespace at either end: the shape of every value `strip()` returns. */
  predicate Trimmed(s: string) {
    s == [] || (!IsWhitespace(s[0]) && !IsWhitespace(s[|s| - 1]))
  }

  /** `r` is `s` with its leading and trailing whitespace removed: an independent,
      declarative description of `s.strip()`. */
  ghost predicate StrippedFrom(r: string, s: string) {
    && Trimmed(r)
    && exists i :: 0 <= i <= |s| - |r| && s[i..i + |r|] == r
                   && AllWhitespace(s[..i]) && AllWhitespace(s[i + |r|..])
  }

  /** The first index at or after `i` whose character is not whitespace, or `|s|`: where
      `s.strip()` starts. */
  function SkipLeading(s: string, i: nat): (j: nat)
    requires i <= |s|
    ensures i <= j <= |s|
    ensures j == |s| || !IsWhitespace(s[j])
    decreases |s| - i
  {
    if i < |s| && IsWhitespace(s[i]) then SkipLeading(s, i + 1) else i
  }

  /** Everything `SkipLeading` skips is whitespace. */
  lemma {:induction false} SkipLeadingSpan(s: string, i: nat)
    requires i <= |s|
    ensures forall k :: i <= k < SkipLeading(s, i) ==> IsWhitespace(s[k])
    decreases |s| - i
  {
    if i < |s| && IsWhitespace(s[i]) {
      SkipLeadingSpan(s, i + 1);
    }
  }

  /** The index just past the last character of `s[lo..j]` that is not whitespace, or `lo`:
      where `s.strip()` ends. */
  function SkipTrailing(s: string, lo: nat, j: nat): (e: nat)
    requires lo <= j <= |s|
    ensures lo <= e <= j
    ensures e == lo || !IsWhitespace(s[e - 1])
    decreases j
  {
    if lo < j && IsWhitespace(s[j - 1]) then SkipTrailing(s, lo, j - 1) else j
  }

  /** Everything `SkipTrailing` skips is whitespace. */
  lemma {:induction false} SkipTrailingSpan(s: string, lo: nat, j: nat)
    requires lo <= j <= |s|
    ensures forall k :: SkipTrailing(s, lo, j) <= k < j ==> IsWhitespace(s[k])
    decreases j
  {
    if lo < j && IsWhitespace(s[j - 1]) {
      SkipTrailingSpan(s, lo, j - 1);
    }
  }

  /** `s.strip()`. */
  function Strip(s: string): (r: string)
    ensures Trimmed(r) && |r| <= |s|
  {
    var b := SkipLeading(s, 0);
    s[b..SkipTrailing(s, b, |s|)]
  }

  /** `Strip` meets the declarative description: it removes whitespace only, and only at the
      two ends. */
  lemma {:induction false} StripIsStrippedFrom(s: string)
    ensures StrippedFrom(Strip(s), s)
  {
    var b := SkipLeading(s, 0);
    var e := SkipTrailing(s, b, |s|);
    var r := s[b..e];
    assert Strip(s) == r;
    SkipLeadingSpan(s, 0);
    SkipTrailingSpan(s, b, |s|);
    forall k | 0 <= k < b ensures IsWhitespace(s[..b][k]) {
      assert s[..b][k] == s[k];
    }
    forall k | 0 <= k < |s| - e ensures IsWhitespace(s[e..][k]) {
      assert s[e..][k] == s[e + k];
    }
    assert s[b..b + |r|] == r;
    StrippedFromAt(r, s, b);
  }

  /** A witness for `StrippedFrom`. */
  lemma {:induction false} StrippedFromAt(r: string, s: string, i: nat)
    requires Trimmed(r) && i + |r| <= |s| && s[i..i + |r|] == r
    requires AllWhitespace(s[..i]) && AllWhitespace(s[i + |r|..])
    ensures StrippedFrom(r, s)
  {
  }

  /** `strip()` returns the empty string exactly for blank input; both directions follow from
      the declarative description. */
  lemma {:induction false} StripEmpty(s: string)
    ensures Strip(s) == [] <==> AllWhitespace(s)
  {
    var r := Strip(s);
    StripIsStrippedFrom(s);
    var i :| 0 <= i <= |s| - |r| && s[i..i + |r|] == r
             && AllWhitespace(s[..i]) && AllWhitespace(s[i + |r|..]);
    if r == [] {
      WhitespaceAround(s, i);
    } else {
      assert r[0] == s[i];
    }
  }

  /** The declarative description determines the result: whatever satisfies it is `Strip(s)`. */
  lemma {:induction false} StrippedFromUnique(r1: string, r2: string, s: string)
    requires StrippedFrom(r1, s) && StrippedFrom(r2, s)
    ensures r1 == r2
  {
    var i1 :| 0 <= i1 <= |s| - |r1| && s[i1..i1 + |r1|] == r1
              && AllWhitespace(s[..i1]) && AllWhitespace(s[i1 + |r1|..]);
    var i2 :| 0 <= i2 <= |s| - |r2| && s[i2..i2 + |r2|] == r2
              && AllWhitespace(s[..i2]) && AllWhitespace(s[i2 + |r2|..]);
    StrippedAtUnique(s, r1, i1, r2, i2);
  }

  lemma {:induction false} StrippedAtUnique(s: string, r1: string, i1: nat, r2: string, i2: nat)
    requires Trimmed(r1) && i1 + |r1| <= |s| && s[i1..i1 + |r1|] == r1
    requires AllWhitespace(s[..i1]) && AllWhitespace(s[i1 + |r1|..])
    requires Trimmed(r2) && i2 + |r2| <= |s| && s[i2..i2 + |r2|] == r2
    requires AllWhitespace(s[..i2]) && AllWhitespace(s[i2 + |r2|..])
    ensures r1 == r2
  {
    if r1 != [] && r2 != [] {
      // both start at the first non-whitespace character and end at the last one
      assert s[i1] == r1[0] && s[i1 + |r1| - 1] == r1[|r1| - 1];
      assert s[i2] == r2[0] && s[i2 + |r2| - 1] == r2[|r2| - 1];
      SameStart(s, i1, i2);
      SameEnd(s, i1 + |r1|, i2 + |r2|);
    } else if r1 != [] {
      assert s[i1] == r1[0];
      WhitespaceAround(s, i2);
    } else if r2 != [] {
      assert s[i2] == r2[0];
      WhitespaceAround(s, i1);
    }
  }

  lemma {:induction false} SameStart(s: string, i: nat, j: nat)
    requires i < |s| && j < |s| && !IsWhitespace(s[i]) && !IsWhitespace(s[j])
    requires AllWhitespace(s[..i]) && AllWhitespace(s[..j])
    ensures i == j
  {
  }

  lemma {:induction false} SameEnd(s: string, e: nat, f: nat)
    requires 0 < e <= |s| && 0 < f <= |s| && !IsWhitespace(s[e - 1]) && !IsWhitespace(s[f - 1])
    requires AllWhitespace(s[e..]) && AllWhitespace(s[f..])
    ensures e == f
  {
  }

  lemma {:induction false} WhitespaceAround(s: string, i: nat)
    requires i <= |s| && AllWhitespace(s[..i]) && AllWhitespace(s[i..])
    ensures AllWhitespace(s)
  {
    forall k | 0 <= k < |s| ensures IsWhitespace(s[k]) {
      if k < i { assert s[k] == s[..i][k]; } else { assert s[k] == s[i..][k - i]; }
    }
  }

  /** Stripping an already trimmed string changes nothing. */
  lemma {:induction false} StripTrimmed(s: string)
    requires Trimmed(s)
    ensures Strip(s) == s
  {
    assert s[0..|s|] == s && s[..0] == [] && s[|s|..] == [];
    StrippedFromAt(s, s, 0);
    StripIsStrippedFrom(s);
    StrippedFromUnique(Strip(s), s, s);
  }

  /** A string whose last character is not whitespace strips to a non-empty string that
      keeps that character last. */
  lemma {:induction false} StripKeepsLast(s: string)
    requires s != [] && !IsWhitespace(s[|s| - 1])
    ensures Strip(s) != [] && Strip(s)[|Strip(s)| - 1] == s[|s| - 1]
  {
    var b := SkipLeading(s, 0);
    SkipLeadingSpan(s, 0);
    assert b < |s|;
    assert SkipTrailing(s, b, |s|) == |s|;
  }

  /** `t` has no occurrence of `sep`. */
  predicate NoOccurrence(t: string, sep: string) {
    forall i :: 0 <= i <= |t| ==> !OccursAt(t, sep, i)
  }

  /** `sep` occurs in `t` at position `i`. */
  predicate OccursAt(t: string, sep: string, i: nat) {
    i + |sep| <= |t| && t[i..i + |sep|] == sep
  }

  /** `sep.join(parts)`. */
  function Join(parts: seq<string>, sep: string): (r: string)
    ensures parts != [] ==> |parts[0]| <= |r| && r[..|parts[0]|] == parts[0]
  {
    if parts == [] then ""
    else if |parts| == 1 then parts[0]
    else parts[0] + sep + Join(parts[1..], sep)
  }

  /** Joining a list that grew by one element at the end. */
  lemma {:induction false} JoinSnoc(parts: seq<string>, p: string, sep: string)
    ensures Join(parts + [p], sep) == if parts == [] then p else Join(parts, sep) + sep + p
  {
    if |parts| > 1 {
      assert (parts + [p])[1..] == parts[1..] + [p];
      JoinSnoc(parts[1..], p, sep);
    } else if |parts| == 1 {
      assert (parts + [p])[1..] == [p];
    }
  }

  /** Extending the last element of a joined list by `sep + x` extends the join by the same. */
  lemma {:induction false} JoinExtendLast(parts: seq<string>, last: string, x: string, sep: string)
    ensures Join(parts + [last + sep + x], sep) == Join(parts + [last], sep) + sep + x
  {
    JoinSnoc(parts, last + sep + x, sep);
    JoinSnoc(parts, last, sep);
    if parts != [] {
      var j := Join(parts, sep);
      assert j + sep + (last + sep + x) == (j + sep + last) + sep + x;
    }
  }

  /** The non-whitespace characters of `s`, in order: the text a reader sees, whatever the
      spacing. */
  function NonWhitespace(s: string): (r: string)
    ensures |r| <= |s|
    ensures forall k :: 0 <= k < |r| ==> !IsWhitespace(r[k])
  {
    if s == [] then []
    else NonWhitespace(s[..|s| - 1]) + (if IsWhitespace(s[|s| - 1]) then [] else [s[|s| - 1]])
  }

  lemma {:induction false} NonWhitespaceAppend(s: string, t: string)
    ensures NonWhitespace(s + t) == NonWhitespace(s) + NonWhitespace(t)
    decreases |t|
  {
    if t == [] {
      assert s + t == s;
    } else {
      var u := t[..|t| - 1];
      assert (s + t)[..|s + t| - 1] == s + u;
      assert (s + t)[|s + t| - 1] == t[|t| - 1];
      NonWhitespaceAppend(s, u);
    }
  }

  lemma {:induction false} NonWhitespaceBlank(s: string)
    requires AllWhitespace(s)
    ensures NonWhitespace(s) == []
    decreases |s|
  {
    if s != [] {
      var u := s[..|s| - 1];
      assert forall k :: 0 <= k < |u| ==> u[k] == s[k];
      NonWhitespaceBlank(u);
    }
  }

  /** Whitespace around a string adds no text. */
  lemma {:induction false} NonWhitespaceAround(pre: string, r: string, post: string)
    requires AllWhitespace(pre) && AllWhitespace(post)
    ensures NonWhitespace(pre + r + post) == NonWhitespace(r)
  {
    NonWhitespaceAppend(pre, r);
    NonWhitespaceAppend(pre + r, post);
    NonWhitespaceBlank(pre);
    NonWhitespaceBlank(post);
  }

  /** `strip()` removes whitespace and nothing else. */
  lemma {:induction false} NonWhitespaceStrip(s: string)
    ensures NonWhitespace(Strip(s)) == NonWhitespace(s)
  {
    var r := Strip(s);
    StripIsStrippedFrom(s);
    var i :| 0 <= i <= |s| - |r| && s[i..i + |r|] == r
             && AllWhitespace(s[..i]) && AllWhitespace(s[i + |r|..]);
    var pre, post := s[..i], s[i + |r|..];
    assert s == pre + r + post;
    NonWhitespaceAround(pre, r, post);
  }

  /** A space between two strings adds no text. */
  lemma {:induction false} NonWhitespaceSpaced(x: string, y: string)
    ensures NonWhitespace(x + " " + y) == NonWhitespace(x + y)
  {
    NonWhitespaceAppend(x + " ", y);
    NonWhitespaceAppend(x, " ");
    NonWhitespaceAppend(x, y);
    NonWhitespaceBlank(" ");
  }

  /** `''.join(parts)`. */
  function Concat(parts: seq<string>): string {
    if parts == [] then "" else Concat(parts[..|parts| - 1]) + parts[|parts| - 1]
  }

  lemma {:induction false} ConcatAppend(ps: seq<string>, qs: seq<string>)
    ensures Concat(ps + qs) == Concat(ps) + Concat(qs)
    decreases |qs|
  {
    if qs == [] {
      assert ps + qs == ps;
    } else {
      var us := qs[..|qs| - 1];
      assert (ps + qs)[..|ps + qs| - 1] == ps + us;
      assert (ps + qs)[|ps + qs| - 1] == qs[|qs| - 1];
      ConcatAppend(ps, us);
    }
  }

  lemma {:induction false} ConcatEmpty(ps: seq<string>)
    requires forall k :: 0 <= k < |ps| ==> ps[k] == ""
    ensures Concat(ps) == ""
    decreases |ps|
  {
    if ps != [] {
      var us := ps[..|ps| - 1];
      assert forall k :: 0 <= k < |us| ==> us[k] == ps[k];
      ConcatEmpty(us);
    }
  }

  /** The text of two strings placed side by side. */
  lemma {:induction false} ConcatPair(x: string, y: string)
    ensures Concat([x, y]) == x + y && Concat([x]) == x
  {
    assert [x][..0] == [];
    assert Concat([x]) == "" + x;
    assert [x, y][..1] == [x];
    assert "" + x == x;
  }

  /** Replacing a run of parts by parts with the same text keeps the text of the whole list. */
  lemma {:induction false} ReplaceKeepsText(a: seq<string>, mid: seq<string>, mid': seq<string>,
                                            b: seq<string>)
    requires NonWhitespace(Concat(mid')) == NonWhitespace(Concat(mid))
    ensures NonWhitespace(Concat(a + mid' + b)) == NonWhitespace(Concat(a + mid + b))
  {
    ConcatAppend(a + mid, b);
    ConcatAppend(a, mid);
    ConcatAppend(a + mid', b);
    ConcatAppend(a, mid');
    NonWhitespaceAppend(Concat(a) + Concat(mid), Concat(b));
    NonWhitespaceAppend(Concat(a), Concat(mid));
    NonWhitespaceAppend(Concat(a) + Concat(mid'), Concat(b));
    NonWhitespaceAppend(Concat(a), Concat(mid'));
  }

  /** `s.split(sep)`: the pieces between the leftmost non-overlapping occurrences of `sep`. */
  function SplitOn(s: string, sep: string): (r: seq<string>)
    requires sep != []
    ensures r != []
    ensures Join(r, sep) == s
    decreases |s|
  {
    if |s| < |sep| then [s]
    else if s[..|sep|] == sep then
      var rest := SplitOn(s[|sep|..], sep);
      assert s == "" + sep + s[|sep|..];
      [""] + rest
    else
      var rest := SplitOn(s[1..], sep);
      assert s == [s[0]] + s[1..];
      [[s[0]] + rest[0]] + rest[1..]
  }

  /** No piece that `split(sep)` returns contains `sep`. */
  lemma {:induction false} SplitOnPieces(s: string, sep: string)
    requires sep != []
    ensures forall k :: 0 <= k < |SplitOn(s, sep)| ==> NoOccurrence(SplitOn(s, sep)[k], sep)
    decreases |s|
  {
    var r := SplitOn(s, sep);
    if |s| < |sep| {
    } else if s[..|sep|] == sep {
      SplitOnPieces(s[|sep|..], sep);
    } else {
      var rest := SplitOn(s[1..], sep);
      SplitOnPieces(s[1..], sep);
      var p := [s[0]] + rest[0];
      // p is a prefix of s
      assert Join(rest, sep)[..|rest[0]|] == rest[0];
      assert s[1..][..|rest[0]|] == rest[0];
      assert p == s[..|p|];
      forall i | 0 <= i <= |p| ensures !OccursAt(p, sep, i) {
        if i == 0 {
          if |sep| <= |p| { assert p[..|sep|] == s[..|sep|]; }
        } else if i + |sep| <= |p| {
          assert p[i..i + |sep|] == rest[0][i - 1..i - 1 + |sep|];
          assert !OccursAt(rest[0], sep, i - 1);
        }
      }
      forall k | 0 <= k < |r| ensures NoOccurrence(r[k], sep) {
        if k > 0 { assert r[k] == rest[k]; }
      }
    }
  }

  /** The last piece `split(sep)` returns is a suffix of the input; it is empty only if the
      input is empty or ends with `sep`. */
  lemma {:induction false} SplitOnLast(s: string, sep: string)
    requires sep != []
    ensures var r := SplitOn(s, sep);
            var last := r[|r| - 1];
            && |last| <= |s| && s[|s| - |last|..] == last
            && (last == [] ==> s == [] || (|sep| <= |s| && s[|s| - |sep|..] == sep))
  {
    var r := SplitOn(s, sep);
    if |r| > 1 {
      assert r == r[..|r| - 1] + [r[|r| - 1]];
      JoinSnoc(r[..|r| - 1], r[|r| - 1], sep);
    }
  }

  /** When `s` ends in a character that is not whitespace and `sep` ends in whitespace, the
      last piece of `s.split(sep)` is not empty and ends in the same character as `s`. */
  lemma {:induction false} SplitOnLastKeepsLast(s: string, sep: string)
    requires sep != [] && IsWhitespace(sep[|sep| - 1])
    requires s != [] && !IsWhitespace(s[|s| - 1])
    ensures var r := SplitOn(s, sep);
            var last := r[|r| - 1];
            last != [] && last[|last| - 1] == s[|s| - 1]
  {
    var r := SplitOn(s, sep);
    var last := r[|r| - 1];
    SplitOnLast(s, sep);
    if last == [] {
      assert s[|s| - 1] == s[|s| - |sep|..][|sep| - 1];
    } else {
      assert s[|s| - 1] == s[|s| - |last|..][|last| - 1];
    }
  }

  /** Python's `xs[:n]`, including its reading of a negative `n` as "all but the last -n". */
  function SliceTo<T>(xs: seq<T>, n: int): (r: seq<T>)
    ensures |r| <= |xs| && r == xs[..|r|]
    ensures 0 <= n ==> |r| == if n < |xs| then n else |xs|
    ensures n < 0 ==> |r| == if -n < |xs| then |xs| + n else 0
  {
    if 0 <= n then (if n < |xs| then xs[..n] else xs)
    else (if -n < |xs| then xs[..|xs| + n] else [])
  }

  /** Python's `[x] * n`: `n` copies of `x`, none when `n` is not positive. */
  function Repeat<T>(x: T, n: int): (r: seq<T>)
    ensures |r| == if 0 < n then n else 0
    ensures forall k :: 0 <= k < |r| ==> r[k] == x
  {
    seq(if 0 < n then n else 0, _ => x)
  }

  /** A token of `split()`: non-empty and free of whitespace. */
  predicate IsWord(w: string) {
    w != [] && forall k :: 0 <= k < |w| ==> !IsWhitespace(w[k])
  }

  /** The longest whitespace-free prefix of `s`. */
  function WordPrefix(s: string): (w: string)
    ensures |w| <= |s| && w == s[..|w|]
    ensures forall k :: 0 <= k < |w| ==> !IsWhitespace(w[k])
    ensures |w| < |s| ==> IsWhitespace(s[|w|])
  {
    if s == [] || IsWhitespace(s[0]) then [] else [s[0]] + WordPrefix(s[1..])
  }

  /** `s.split()` with no separator: the maximal runs of non-whitespace characters. */
  function Words(s: string): (ws: seq<string>)
    ensures forall k :: 0 <= k < |ws| ==> IsWord(ws[k])
    ensures ws == [] <==> AllWhitespace(s)
    decreases |s|
  {
    if s == [] then []
    else if IsWhitespace(s[0]) then
      var ws := Words(s[1..]);
      assert AllWhitespace(s[1..]) ==> AllWhitespace(s) by {
        if AllWhitespace(s[1..]) {
          forall k | 0 <= k < |s| ensures IsWhitespace(s[k]) { if k > 0 { assert s[k] == s[1..][k - 1]; } }
        }
      }
      ws
    else
      var w := WordPrefix(s);
      [w] + Words(s[|w|..])
  }

  /** Whitespace in front of a string does not change its words. */
  lemma {:induction false} WordsSkipSpace(s: string)
    ensures Words(" " + s) == Words(s)
  {
    assert (" " + s)[1..] == s;
  }

  /** Splitting words joined by single spaces gives the words back: `" ".join` and `split()`
      are inverse on lists of tokens. */
  lemma {:induction false} WordsOfJoin(ws: seq<string>)
    requires forall k :: 0 <= k < |ws| ==> IsWord(ws[k])
    ensures Words(Join(ws, " ")) == ws
  {
    if ws == [] {
    } else if |ws| == 1 {
      WordsOfWord(ws[0], "");
      assert ws[0] + "" == ws[0];
    } else {
      var tail := Join(ws[1..], " ");
      WordsOfJoin(ws[1..]);
      assert Join(ws, " ") == ws[0] + (" " + tail);
      WordsOfWord(ws[0], " " + tail);
      WordsSkipSpace(tail);
    }
  }

  /** A word followed by nothing or by whitespace is the first token. */
  lemma {:induction false} WordsOfWord(w: string, rest: string)
    requires IsWord(w)
    requires rest == [] || IsWhitespace(rest[0])
    ensures Words(w + rest) == [w] + Words(rest)
  {
    var s := w + rest;
    WordPrefixOf(w, rest);
    assert s[|w|..] == rest;
  }

  lemma {:induction false} WordPrefixOf(w: string, rest: string)
    requires forall k :: 0 <= k < |w| ==> !IsWhitespace(w[k])
    requires rest == [] || IsWhitespace(rest[0])
    ensures WordPrefix(w + rest) == w
    decreases |w|
  {
    if w != [] {
      assert (w + rest)[1..] == w[1..] + rest;
      WordPrefixOf(w[1..], rest);
    } else {
      assert w + rest == rest;
    }
  }

  /** `gaps[0] + ws[0] + gaps[1] + ... + ws[n - 1] + gaps[n]`: words set between gaps. */
  function Interleave(gaps: seq<string>, ws: seq<string>): string
    requires |gaps| == |ws| + 1
    decreases |ws|
  {
    if ws == [] then gaps[0] else gaps[0] + ws[0] + Interleave(gaps[1..], ws[1..])
  }

  /** Gaps between words: all whitespace, and not empty between two words. */
  predicate Gaps(gaps: seq<string>) {
    && (forall k :: 0 <= k < |gaps| ==> AllWhitespace(gaps[k]))
    && (forall k :: 0 < k < |gaps| - 1 ==> gaps[k] != [])
  }

  /** The whitespace runs of `s` around and between its words. */
  function GapsOf(s: string): (gaps: seq<string>)
    ensures |gaps| == |Words(s)| + 1
    decreases |s|
  {
    if s == [] then [""]
    else if IsWhitespace(s[0]) then
      var g := GapsOf(s[1..]);
      [[s[0]] + g[0]] + g[1..]
    else
      [""] + GapsOf(s[|WordPrefix(s)|..])
  }

  /** Whitespace in front of a string does not change its words. */
  lemma {:induction false} WordsSkipBlank(g: string, s: string)
    requires AllWhitespace(g)
    ensures Words(g + s) == Words(s)
    decreases |g|
  {
    if g == [] {
      assert g + s == s;
    } else {
      assert (g + s)[1..] == g[1..] + s;
      assert forall k :: 0 <= k < |g[1..]| ==> g[1..][k] == g[k + 1];
      WordsSkipBlank(g[1..], s);
    }
  }

  /** Words set between gaps are exactly the words `split()` finds: whatever the whitespace
      between and around them, the result is the same. */
  lemma {:induction false} WordsOfInterleave(gaps: seq<string>, ws: seq<string>)
    requires |gaps| == |ws| + 1 && Gaps(gaps)
    requires forall k :: 0 <= k < |ws| ==> IsWord(ws[k])
    ensures Words(Interleave(gaps, ws)) == ws
    decreases |ws|
  {
    if ws != [] {
      var gs, vs := gaps[1..], ws[1..];
      assert forall k :: 0 <= k < |gs| ==> gs[k] == gaps[k + 1];
      assert Gaps(gs);
      WordsOfInterleave(gs, vs);
      var rest := Interleave(gs, vs);
      if vs != [] {
        assert gaps[1] != [];
        assert rest == gaps[1] + (vs[0] + Interleave(gs[1..], vs[1..]));
        assert rest[0] == gaps[1][0];
      }
      WordsOfWord(ws[0], rest);
      assert Interleave(gaps, ws) == gaps[0] + (ws[0] + rest);
      WordsSkipBlank(gaps[0], ws[0] + rest);
    }
  }

  /** Putting a string in front of the first gap puts it in front of the whole text. */
  lemma {:induction false} InterleavePrepend(x: string, g: seq<string>, ws: seq<string>)
    requires |g| == |ws| + 1
    ensures Interleave([x + g[0]] + g[1..], ws) == x + Interleave(g, ws)
  {
    var g' := [x + g[0]] + g[1..];
    if ws != [] {
      assert g'[1..] == g[1..];
      var tail := Interleave(g[1..], ws[1..]);
      assert (x + g[0]) + ws[0] + tail == x + (g[0] + ws[0] + tail);
    }
  }

  /** Every string is its words set between its gaps, so together with `WordsOfInterleave`
      this determines `split()` on every input. */
  lemma {:induction false} WordsCoverText(s: string)
    ensures Gaps(GapsOf(s)) && Interleave(GapsOf(s), Words(s)) == s
    decreases |s|
  {
    if s == [] {
    } else if IsWhitespace(s[0]) {
      WordsCoverText(s[1..]);
      SpaceGaps(s);
      SpaceText(s);
    } else {
      WordsCoverText(s[|WordPrefix(s)|..]);
      WordGaps(s);
      WordText(s);
    }
  }

  lemma {:induction false} SpaceGaps(s: string)
    requires s != [] && IsWhitespace(s[0]) && Gaps(GapsOf(s[1..]))
    ensures Gaps(GapsOf(s))
  {
    var g := GapsOf(s[1..]);
    var gaps := GapsOf(s);
    assert gaps == [[s[0]] + g[0]] + g[1..];
    assert forall k :: 0 < k < |gaps| ==> gaps[k] == g[k];
    forall k | 0 <= k < |gaps[0]| ensures IsWhitespace(gaps[0][k]) {
      if k > 0 { assert gaps[0][k] == g[0][k - 1]; }
    }
  }

  lemma {:induction false} SpaceText(s: string)
    requires s != [] && IsWhitespace(s[0])
    requires Interleave(GapsOf(s[1..]), Words(s[1..])) == s[1..]
    ensures Interleave(GapsOf(s), Words(s)) == s
  {
    InterleavePrepend([s[0]], GapsOf(s[1..]), Words(s[1..]));
    assert [s[0]] + s[1..] == s;
  }

  lemma {:induction false} WordGaps(s: string)
    requires s != [] && !IsWhitespace(s[0]) && Gaps(GapsOf(s[|WordPrefix(s)|..]))
    ensures Gaps(GapsOf(s))
  {
    var rest := s[|WordPrefix(s)|..];
    var g := GapsOf(rest);
    var gaps := GapsOf(s);
    assert gaps == [""] + g;
    assert forall k :: 0 < k < |gaps| ==> gaps[k] == g[k - 1];
    // the gap after the first word is the leading whitespace of the rest
    assert rest != [] && IsWhitespace(rest[0]) ==> g[0] != [];
    assert rest == [] ==> |g| == 1;
  }

  lemma {:induction false} WordText(s: string)
    requires s != [] && !IsWhitespace(s[0])
    requires Interleave(GapsOf(s[|WordPrefix(s)|..]), Words(s[|WordPrefix(s)|..])) == s[|WordPrefix(s)|..]
    ensures Interleave(GapsOf(s), Words(s)) == s
  {
    var w := WordPrefix(s);
    var rest := s[|w|..];
    var gs, ws := GapsOf(rest), Words(rest);
    assert GapsOf(s) == [""] + gs;
    assert Words(s) == [w] + ws;
    InterleaveCons("", w, gs, ws);
    assert s == "" + w + rest;
  }

  /** One more word and gap in front. */
  lemma {:induction false} InterleaveCons(g: string, w: string, gs: seq<string>, ws: seq<string>)
    requires |gs| == |ws| + 1
    ensures Interleave([g] + gs, [w] + ws) == g + w + Interleave(gs, ws)
  {
    assert ([g] + gs)[1..] == gs && ([w] + ws)[1..] == ws;
  }

  /** Only single spaces separate the characters of `s`, and none sits at either end: the
      shape of `" ".join(tokens)`. */
  predicate SingleSpaced(s: string) {
    forall k :: 0 <= k < |s| && IsWhitespace(s[k]) ==>
      s[k] == ' ' && 0 < k < |s| - 1 && !IsWhitespace(s[k - 1]) && !IsWhitespace(s[k + 1])
  }

  /** Tokens joined by single spaces leave no leading, trailing or doubled whitespace. */
  lemma {:induction false} JoinWordsSingleSpaced(ws: seq<string>)
    requires forall k :: 0 <= k < |ws| ==> IsWord(ws[k])
    ensures SingleSpaced(Join(ws, " "))
    ensures ws != [] ==> var s := Join(ws, " ");
                         s != [] && !IsWhitespace(s[0]) && !IsWhitespace(s[|s| - 1])
  {
    if |ws| > 1 {
      JoinWordsSingleSpaced(ws[1..]);
      var w, tail := ws[0], Join(ws[1..], " ");
      var s := Join(ws, " ");
      assert s == w + " " + tail;
      forall k | 0 <= k < |s| && IsWhitespace(s[k])
        ensures s[k] == ' ' && 0 < k < |s| - 1 && !IsWhitespace(s[k - 1]) && !IsWhitespace(s[k + 1])
      {
        if k > |w| {
          assert s[k] == tail[k - |w| - 1];
          if k - 1 > |w| { assert s[k - 1] == tail[k - |w| - 2]; }
          assert s[k + 1] == tail[k - |w|];
        }
      }
    } else if |ws| == 1 {
      assert Join(ws, " ") == ws[0];
    }
  }

  /** The character of a decimal digit. */
  function DigitChar(d: nat): (c: char)
    requires d < 10
    ensures '0' <= c <= '9' && c as int - '0' as int == d
  {
    ('0' as int + d) as char
  }

  predicate AllDigits(s: string) {
    forall k :: 0 <= k < |s| ==> '0' <= s[k] <= '9'
  }

  /** `str(n)` for a non-negative integer: its decimal digits, with no leading zero. */
  function NatToString(n: nat): (r: string)
    ensures r != [] && AllDigits(r)
    ensures r[0] == '0' ==> n == 0 && |r| == 1
    decreases n
  {
    if n < 10 then [DigitChar(n)] else NatToString(n / 10) + [DigitChar(n % 10)]
  }

  /** The end of the run of decimal digits in `s` that starts at index `i`. */
  function DigitEnd(s: string, i: nat): (j: nat)
    requires i <= |s|
    ensures i <= j <= |s|
    ensures forall k :: i <= k < j ==> '0' <= s[k] <= '9'
    ensures j == |s| || !('0' <= s[j] <= '9')
    decreases |s| - i
  {
    if i < |s| && '0' <= s[i] <= '9' then DigitEnd(s, i + 1) else i
  }

  /** A run of digits ended by the end of `s` or by a non-digit is the run `DigitEnd` finds. */
  lemma {:induction false} DigitEndAt(s: string, i: nat, j: nat)
    requires i <= j <= |s|
    requires forall k :: i <= k < j ==> '0' <= s[k] <= '9'
    requires j == |s| || !('0' <= s[j] <= '9')
    ensures DigitEnd(s, i) == j
    decreases j - i
  {
    if i < j {
      DigitEndAt(s, i + 1, j);
    }
  }

  /** The number a string of decimal digits denotes. */
  function DecimalValue(s: string): nat
    requires AllDigits(s)
  {
    if s == [] then 0 else 10 * DecimalValue(s[..|s| - 1]) + (s[|s| - 1] as int - '0' as int)
  }

  /** Reading back `str(n)` gives `n`. */
  lemma {:induction false} DecimalRoundTrip(n: nat)
    ensures DecimalValue(NatToString(n)) == n
    decreases n
  {
    if n >= 10 {
      DecimalRoundTrip(n / 10);
      var s := NatToString(n);
      assert s[..|s| - 1] == NatToString(n / 10);
    }
  }

  /** `str(i)` for any integer. */
  function IntToString(i: int): string {
    if i < 0 then "-" + NatToString(-i) else NatToString(i)
  }
}
