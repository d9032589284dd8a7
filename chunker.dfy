/** The thread assembler `_chunk_text`: the summary is cut at every ". ", the fragments are
    packed greedily into parts, and the parts are then split (longest first) or merged
    (cheapest adjacent pair first) until there are exactly as many as were asked for. */
module Chunker {
  import opened PyStr

  /** The sentence delimiter the summary is split on. */
  const Delimiter: string := ". "
  /** Characters set aside for the emoji and numbering of a tweet. */
  const ReservedOverhead: int := 15
  const SoftLimit: int := 260
  /** The longest part packing builds by joining fragments: a tentative part closes the
      current one when its length plus the overhead exceeds the soft limit. */
  const MaxPacked: int := SoftLimit - ReservedOverhead

  // ---------------------------------------------------------------------------------------
  // Greedy packing

  /** The state of the packing loop: the part being built and the parts closed so far. */
  datatype Packing = Packing(current: string, parts: seq<string>)

  /** `current + '. ' + seg`, or `seg` alone when nothing is being built yet. */
  function Tentative(current: string, seg: string): string {
    if current != "" then current + Delimiter + seg else seg
  }

  /** The packing loop's body for one sentence. */
  function PackStep(st: Packing, sentence: string): Packing {
    var seg := Strip(sentence);
    if seg == "" then st else Place(st, seg)
  }

  /** Places a non-empty fragment: it joins the part being built if the result stays within
      the soft limit, otherwise that part is closed and the fragment starts the next one. */
  function Place(st: Packing, seg: string): Packing {
    var tentative := Tentative(st.current, seg);
    if |tentative| + ReservedOverhead > SoftLimit then Packing(seg, st.parts + [st.current])
    else Packing(tentative, st.parts)
  }

  /** The packing state after the loop has consumed `sentences[..i]`. */
  function PackPrefix(sentences: seq<string>, i: nat): Packing
    requires i <= |sentences|
  {
    if i == 0 then Packing("", []) else PackStep(PackPrefix(sentences, i - 1), sentences[i - 1])
  }

  /** The parts after the loop: the part being built is closed if it is not empty. */
  function Closed(st: Packing): seq<string> {
    if st.current != "" then st.parts + [st.current] else st.parts
  }

  /** The parts greedy packing makes of a list of sentences. */
  function Greedy(sentences: seq<string>): seq<string> {
    Closed(PackPrefix(sentences, |sentences|))
  }

  /** The stripped, non-empty fragments among `sentences[..i]`: exactly what packing consumes. */
  function Fragments(sentences: seq<string>, i: nat): (fs: seq<string>)
    requires i <= |sentences|
    ensures forall k :: 0 <= k < |fs| ==> fs[k] != "" && Trimmed(fs[k])
  {
    if i == 0 then []
    else
      var seg := Strip(sentences[i - 1]);
      Fragments(sentences, i - 1) + if seg == "" then [] else [seg]
  }

  /** Drops the spurious empty part that packing puts first when the first fragment is too long. */
  function WithoutLeadingEmpty(ps: seq<string>): seq<string> {
    if ps != [] && ps[0] == "" then ps[1..] else ps
  }

  /** What holds of the packing state after consuming the fragments `frags`. */
  ghost predicate PackInv(st: Packing, frags: seq<string>) {
    PackShape(st, frags) && PackJoined(st, frags)
  }

  /** Which parts can be empty, and which can be long: only the first closed part can be
      empty, exactly when the first fragment is too long; every part is stripped, and a part
      longer than the packing limit is a fragment on its own. */
  ghost predicate PackShape(st: Packing, frags: seq<string>) {
    && (st.current == "" <==> frags == [])
    && (frags == [] ==> st.parts == [])
    && (forall k :: 0 < k < |st.parts| ==> st.parts[k] != "")
    && ((st.parts != [] && st.parts[0] == "") <==> (frags != [] && |frags[0]| > MaxPacked))
    && (forall k :: 0 <= k < |st.parts| ==>
          Trimmed(st.parts[k]) && (|st.parts[k]| <= MaxPacked || st.parts[k] in frags))
    && Trimmed(st.current) && (|st.current| <= MaxPacked || st.current in frags)
  }

  /** The parts, without the spurious empty one, joined with ". " are the fragments joined
      with ". ". */
  ghost predicate PackJoined(st: Packing, frags: seq<string>) {
    Join(WithoutLeadingEmpty(Closed(st)), Delimiter) == Join(frags, Delimiter)
  }

  lemma {:induction false} WithoutLeadingEmptySnoc(ps: seq<string>, x: string)
    requires x != ""
    ensures WithoutLeadingEmpty(ps + [x]) == WithoutLeadingEmpty(ps) + [x]
  {
    if ps != [] && ps[0] == "" {
      assert (ps + [x])[1..] == ps[1..] + [x];
    }
  }

  /** One packing step keeps the invariant. */
  lemma {:induction false} PackStepInv(st: Packing, frags: seq<string>, sentence: string)
    requires PackInv(st, frags)
    requires forall k :: 0 <= k < |frags| ==> frags[k] != "" && Trimmed(frags[k])
    ensures var seg := Strip(sentence);
            PackInv(PackStep(st, sentence), frags + if seg == "" then [] else [seg])
  {
    var seg := Strip(sentence);
    var frags' := frags + if seg == "" then [] else [seg];
    var st' := PackStep(st, sentence);
    if seg != "" {
      assert frags' == frags + [seg];
      var tentative := Tentative(st.current, seg);
      if st.current == "" {
        PackStartInv(st, frags, seg);
        assert st' == Packing(seg, if |seg| + ReservedOverhead > SoftLimit then [""] else []);
      } else if |tentative| + ReservedOverhead > SoftLimit {
        PackCloseInv(st, frags, seg);
        assert st' == Packing(seg, st.parts + [st.current]);
      } else {
        PackExtendInv(st, frags, seg);
        assert st' == Packing(st.current + Delimiter + seg, st.parts);
      }
    } else {
      assert frags' == frags && st' == st;
    }
  }

  /** The first fragment starts the first part; when it is too long on its own, the empty
      part being built is closed first. */
  lemma {:induction false} PackStartInv(st: Packing, frags: seq<string>, seg: string)
    requires PackInv(st, frags) && st.current == ""
    requires seg != "" && Trimmed(seg)
    ensures PackInv(Packing(seg, if |seg| + ReservedOverhead > SoftLimit then [""] else []),
                    frags + [seg])
  {
    assert frags == [] && frags + [seg] == [seg];
  }

  /** A fragment that does not fit closes the part being built and starts the next one. */
  lemma {:induction false} PackCloseInv(st: Packing, frags: seq<string>, seg: string)
    requires PackInv(st, frags) && st.current != ""
    requires seg != "" && Trimmed(seg)
    ensures PackInv(Packing(seg, st.parts + [st.current]), frags + [seg])
  {
    PackCloseShape(st, frags, seg);
    PackCloseJoined(st, frags, seg);
  }

  lemma {:induction false} PackCloseShape(st: Packing, frags: seq<string>, seg: string)
    requires PackShape(st, frags) && st.current != ""
    requires seg != "" && Trimmed(seg)
    ensures PackShape(Packing(seg, st.parts + [st.current]), frags + [seg])
  {
    var c := st.current;
    var ps := st.parts + [c];
    var frags' := frags + [seg];
    assert frags'[0] == frags[0];
    assert ps[0] == if st.parts == [] then c else st.parts[0];
    forall k | 0 <= k < |ps|
      ensures Trimmed(ps[k]) && (|ps[k]| <= MaxPacked || ps[k] in frags')
    {
      if k < |st.parts| { assert ps[k] == st.parts[k]; }
    }
  }

  lemma {:induction false} PackCloseJoined(st: Packing, frags: seq<string>, seg: string)
    requires PackJoined(st, frags) && st.current != "" && frags != []
    requires seg != ""
    ensures PackJoined(Packing(seg, st.parts + [st.current]), frags + [seg])
  {
    var c := st.current;
    var ps := st.parts + [c];
    var q := WithoutLeadingEmpty(st.parts);
    assert Closed(st) == ps;
    assert Closed(Packing(seg, ps)) == ps + [seg];
    WithoutLeadingEmptySnoc(st.parts, c);
    WithoutLeadingEmptySnoc(ps, seg);
    JoinSnoc(q + [c], seg, Delimiter);
    JoinSnoc(frags, seg, Delimiter);
  }

  /** A fragment that fits is appended to the part being built, after ". ". */
  lemma {:induction false} PackExtendInv(st: Packing, frags: seq<string>, seg: string)
    requires PackInv(st, frags) && st.current != ""
    requires seg != "" && Trimmed(seg)
    requires |st.current + Delimiter + seg| + ReservedOverhead <= SoftLimit
    ensures PackInv(Packing(st.current + Delimiter + seg, st.parts), frags + [seg])
  {
    PackExtendShape(st, frags, seg);
    PackExtendJoined(st, frags, seg);
  }

  lemma {:induction false} PackExtendShape(st: Packing, frags: seq<string>, seg: string)
    requires PackShape(st, frags) && st.current != ""
    requires seg != "" && Trimmed(seg)
    requires |st.current + Delimiter + seg| + ReservedOverhead <= SoftLimit
    ensures PackShape(Packing(st.current + Delimiter + seg, st.parts), frags + [seg])
  {
    var c := st.current;
    var tentative := c + Delimiter + seg;
    var frags' := frags + [seg];
    assert frags'[0] == frags[0];
    assert tentative[0] == c[0] && tentative[|tentative| - 1] == seg[|seg| - 1];
    forall k | 0 <= k < |st.parts|
      ensures Trimmed(st.parts[k]) && (|st.parts[k]| <= MaxPacked || st.parts[k] in frags')
    {
    }
  }

  lemma {:induction false} PackExtendJoined(st: Packing, frags: seq<string>, seg: string)
    requires PackJoined(st, frags) && st.current != "" && frags != []
    requires seg != ""
    ensures PackJoined(Packing(st.current + Delimiter + seg, st.parts), frags + [seg])
  {
    var c := st.current;
    var q := WithoutLeadingEmpty(st.parts);
    WithoutLeadingEmptySnoc(st.parts, c);
    WithoutLeadingEmptySnoc(st.parts, c + Delimiter + seg);
    JoinExtendLast(q, c, seg, Delimiter);
    JoinSnoc(frags, seg, Delimiter);
  }

  /** The packing loop keeps the invariant on every prefix of the sentences. */
  lemma {:induction false} PackPrefixInv(sentences: seq<string>, i: nat)
    requires i <= |sentences|
    ensures PackInv(PackPrefix(sentences, i), Fragments(sentences, i))
  {
    for j := 0 to i
      invariant PackInv(PackPrefix(sentences, j), Fragments(sentences, j))
    {
      PackPrefixStep(sentences, j + 1);
    }
  }

  /** One iteration of the packing loop keeps the invariant. */
  lemma {:induction false} PackPrefixStep(sentences: seq<string>, i: nat)
    requires 0 < i <= |sentences|
    requires PackInv(PackPrefix(sentences, i - 1), Fragments(sentences, i - 1))
    ensures PackInv(PackPrefix(sentences, i), Fragments(sentences, i))
  {
    var st, frags := PackPrefix(sentences, i - 1), Fragments(sentences, i - 1);
    var seg := Strip(sentences[i - 1]);
    assert PackPrefix(sentences, i) == PackStep(st, sentences[i - 1]);
    assert Fragments(sentences, i) == frags + if seg == "" then [] else [seg];
    PackStepInv(st, frags, sentences[i - 1]);
  }

  // ---------------------------------------------------------------------------------------
  // Where the parts begin and end

  /** `b` cuts the fragments into the parts `g`: part `k` is fragments `b[k]` to `b[k + 1]`
      joined with ". ". Only the first group can be empty; a group of two or more fragments
      fits the packing limit; and every part but the last was closed because adding the first
      fragment of the next part would have overflowed it. */
  ghost predicate GreedyBounds(g: seq<string>, frags: seq<string>, b: seq<nat>) {
    BoundsShape(g, frags, b) && BoundsJoin(g, frags, b) && BoundsFit(g, b) && BoundsClosed(g, frags, b)
  }

  /** `b` runs from the first fragment to past the last, without going back, and only the first
      group can be empty. */
  ghost predicate BoundsShape(g: seq<string>, frags: seq<string>, b: seq<nat>) {
    && |b| == |g| + 1 && b[0] == 0 && b[|g|] == |frags|
    && (forall k :: 0 <= k < |b| ==> b[k] <= |frags|)
    && (forall k :: 0 <= k < |g| ==> b[k] <= b[k + 1])
    && (forall k :: 0 < k < |g| ==> b[k] < b[k + 1])
  }

  /** Part `k` is its group of fragments joined with ". ". */
  ghost predicate BoundsJoin(g: seq<string>, frags: seq<string>, b: seq<nat>) {
    forall k :: 0 <= k < |g| && k + 1 < |b| && b[k] <= b[k + 1] <= |frags| ==>
      g[k] == Join(frags[b[k]..b[k + 1]], Delimiter)
  }

  /** A part of two or more fragments fits the packing limit. */
  ghost predicate BoundsFit(g: seq<string>, b: seq<nat>) {
    forall k :: 0 <= k < |g| && k + 1 < |b| && b[k] + 1 < b[k + 1] ==> |g[k]| <= MaxPacked
  }

  /** A part followed by another was closed because the next fragment did not fit. */
  ghost predicate BoundsClosed(g: seq<string>, frags: seq<string>, b: seq<nat>) {
    forall k :: 0 <= k < |g| - 1 && k + 1 < |b| ==>
      b[k + 1] < |frags| && |Tentative(g[k], frags[b[k + 1]])| > MaxPacked
  }

  /** The closed parts followed by the part being built. */
  function Open(st: Packing): seq<string> {
    st.parts + [st.current]
  }

  /** A slice of the fragments before a new one is appended is unchanged by it. */
  lemma {:induction false} SliceBeforeSnoc(frags: seq<string>, seg: string, i: nat, j: nat)
    requires i <= j <= |frags|
    ensures (frags + [seg])[i..j] == frags[i..j]
  {
    assert (frags + [seg])[..|frags|] == frags;
  }

  /** The first fragment opens the first group; when it is too long on its own, an empty group
      is closed before it. */
  lemma {:induction false} BoundsStart(seg: string) returns (b': seq<nat>)
    requires seg != ""
    ensures GreedyBounds(if |seg| > MaxPacked then ["", seg] else [seg], [seg], b')
  {
    var frags := [seg];
    assert frags[0..1] == [seg] && frags[0..0] == [] && frags[1..1] == [];
    if |seg| > MaxPacked {
      b' := [0, 0, 1];
      assert Tentative("", frags[0]) == seg;
    } else {
      b' := [0, 1];
    }
  }

  /** Closing the last group and opening one for the new fragment keeps the shape of the
      boundaries. */
  lemma {:induction false} CloseShape(a: seq<string>, frags: seq<string>, b: seq<nat>, seg: string)
    requires BoundsShape(a, frags, b) && a != []
    ensures BoundsShape(a + [seg], frags + [seg], b + [|frags| + 1])
  {
  }

  lemma {:induction false} CloseJoin(a: seq<string>, frags: seq<string>, b: seq<nat>, seg: string)
    requires BoundsShape(a, frags, b) && BoundsJoin(a, frags, b)
    ensures BoundsJoin(a + [seg], frags + [seg], b + [|frags| + 1])
  {
    var a', frags', b' := a + [seg], frags + [seg], b + [|frags| + 1];
    forall k | 0 <= k < |a'| && k + 1 < |b'| && b'[k] <= b'[k + 1] <= |frags'|
      ensures a'[k] == Join(frags'[b'[k]..b'[k + 1]], Delimiter)
    {
      if k < |a| {
        assert a'[k] == a[k] && b'[k] == b[k] && b'[k + 1] == b[k + 1];
        SliceBeforeSnoc(frags, seg, b[k], b[k + 1]);
      } else {
        assert frags'[|frags|..|frags| + 1] == [seg];
      }
    }
  }

  lemma {:induction false} CloseFit(a: seq<string>, frags: seq<string>, b: seq<nat>, seg: string)
    requires BoundsShape(a, frags, b) && BoundsFit(a, b)
    ensures BoundsFit(a + [seg], b + [|frags| + 1])
  {
    var a', b' := a + [seg], b + [|frags| + 1];
    forall k | 0 <= k < |a'| && k + 1 < |b'| && b'[k] + 1 < b'[k + 1] ensures |a'[k]| <= MaxPacked {
      assert k < |a|;
      assert a'[k] == a[k] && b'[k] == b[k] && b'[k + 1] == b[k + 1];
    }
  }

  lemma {:induction false} CloseClosed(a: seq<string>, frags: seq<string>, b: seq<nat>, seg: string)
    requires BoundsShape(a, frags, b) && BoundsClosed(a, frags, b) && a != []
    requires |Tentative(a[|a| - 1], seg)| > MaxPacked
    ensures BoundsClosed(a + [seg], frags + [seg], b + [|frags| + 1])
  {
    var a', frags', b' := a + [seg], frags + [seg], b + [|frags| + 1];
    forall k | 0 <= k < |a'| - 1 && k + 1 < |b'|
      ensures b'[k + 1] < |frags'| && |Tentative(a'[k], frags'[b'[k + 1]])| > MaxPacked
    {
      assert a'[k] == a[k] && b'[k + 1] == b[k + 1];
      if k < |a| - 1 {
        assert frags'[b[k + 1]] == frags[b[k + 1]];
      } else {
        assert frags'[|frags|] == seg;
      }
    }
  }

  /** A fragment that does not fit closes the group being built and opens the next one. */
  lemma {:induction false} BoundsClose(a: seq<string>, frags: seq<string>, b: seq<nat>, seg: string)
    requires GreedyBounds(a, frags, b) && a != []
    requires |Tentative(a[|a| - 1], seg)| > MaxPacked
    ensures GreedyBounds(a + [seg], frags + [seg], b + [|frags| + 1])
  {
    CloseShape(a, frags, b, seg);
    CloseJoin(a, frags, b, seg);
    CloseFit(a, frags, b, seg);
    CloseClosed(a, frags, b, seg);
  }

  /** Adding a fragment to the last group keeps the shape of the boundaries. */
  lemma {:induction false} ExtendShape(a: seq<string>, frags: seq<string>, b: seq<nat>, x: string)
    requires BoundsShape(a, frags, b) && a != []
    ensures BoundsShape(a[..|a| - 1] + [x], frags + [x], b[..|a|] + [|frags| + 1])
  {
  }

  lemma {:induction false} ExtendJoin(a: seq<string>, frags: seq<string>, b: seq<nat>, seg: string)
    requires BoundsShape(a, frags, b) && BoundsJoin(a, frags, b) && a != [] && a[|a| - 1] != ""
    ensures var m := |a| - 1;
            BoundsJoin(a[..m] + [a[m] + Delimiter + seg], frags + [seg], b[..m + 1] + [|frags| + 1])
  {
    var m := |a| - 1;
    var n := |frags|;
    var a', frags', b' := a[..m] + [a[m] + Delimiter + seg], frags + [seg], b[..m + 1] + [n + 1];
    forall k | 0 <= k < |a'| && k + 1 < |b'| && b'[k] <= b'[k + 1] <= |frags'|
      ensures a'[k] == Join(frags'[b'[k]..b'[k + 1]], Delimiter)
    {
      if k < m {
        assert a'[k] == a[k] && b'[k] == b[k] && b'[k + 1] == b[k + 1];
        SliceBeforeSnoc(frags, seg, b[k], b[k + 1]);
      } else {
        assert a'[k] == a[m] + Delimiter + seg && b'[k] == b[m] && b'[k + 1] == n + 1;
        ExtendJoinLast(a, frags, b, seg);
      }
    }
  }

  /** The last group, grown by one fragment, still joins to the last part. */
  lemma {:induction false} ExtendJoinLast(a: seq<string>, frags: seq<string>, b: seq<nat>, seg: string)
    requires BoundsShape(a, frags, b) && BoundsJoin(a, frags, b) && a != [] && a[|a| - 1] != ""
    ensures var m := |a| - 1;
            a[m] + Delimiter + seg == Join((frags + [seg])[b[m]..|frags| + 1], Delimiter)
  {
    var m := |a| - 1;
    var n := |frags|;
    var last := frags[b[m]..n];
    assert a[m] == Join(last, Delimiter);
    assert (frags + [seg])[b[m]..n + 1] == last + [seg];
    JoinSnoc(last, seg, Delimiter);
  }

  lemma {:induction false} ExtendFit(a: seq<string>, frags: seq<string>, b: seq<nat>, x: string)
    requires BoundsShape(a, frags, b) && BoundsFit(a, b) && a != [] && |x| <= MaxPacked
    ensures var m := |a| - 1;
            BoundsFit(a[..m] + [x], b[..m + 1] + [|frags| + 1])
  {
    var m := |a| - 1;
    var a', b' := a[..m] + [x], b[..m + 1] + [|frags| + 1];
    forall k | 0 <= k < |a'| && k + 1 < |b'| && b'[k] + 1 < b'[k + 1] ensures |a'[k]| <= MaxPacked {
      if k < m {
        assert a'[k] == a[k] && b'[k] == b[k] && b'[k + 1] == b[k + 1];
      }
    }
  }

  lemma {:induction false} ExtendClosed(a: seq<string>, frags: seq<string>, b: seq<nat>, x: string, seg: string)
    requires BoundsShape(a, frags, b) && BoundsClosed(a, frags, b) && a != []
    ensures var m := |a| - 1;
            BoundsClosed(a[..m] + [x], frags + [seg], b[..m + 1] + [|frags| + 1])
  {
    var m := |a| - 1;
    var a', frags', b' := a[..m] + [x], frags + [seg], b[..m + 1] + [|frags| + 1];
    forall k | 0 <= k < |a'| - 1 && k + 1 < |b'|
      ensures b'[k + 1] < |frags'| && |Tentative(a'[k], frags'[b'[k + 1]])| > MaxPacked
    {
      assert a'[k] == a[k] && b'[k + 1] == b[k + 1];
      assert frags'[b[k + 1]] == frags[b[k + 1]];
    }
  }

  /** A fragment that fits joins the group being built. */
  lemma {:induction false} BoundsExtend(a: seq<string>, frags: seq<string>, b: seq<nat>, seg: string)
    requires GreedyBounds(a, frags, b) && a != [] && a[|a| - 1] != ""
    requires |a[|a| - 1] + Delimiter + seg| <= MaxPacked
    ensures var m := |a| - 1;
            GreedyBounds(a[..m] + [a[m] + Delimiter + seg], frags + [seg], b[..m + 1] + [|frags| + 1])
  {
    var m := |a| - 1;
    ExtendShape(a, frags, b, a[m] + Delimiter + seg);
    ExtendJoin(a, frags, b, seg);
    ExtendFit(a, frags, b, a[m] + Delimiter + seg);
    ExtendClosed(a, frags, b, a[m] + Delimiter + seg, seg);
  }

  /** One packing step extends the boundaries. */
  lemma {:induction false} BoundsStep(st: Packing, frags: seq<string>, b: seq<nat>, sentence: string)
    returns (b': seq<nat>)
    requires st.current == "" ==> frags == [] && st.parts == []
    requires GreedyBounds(Open(st), frags, b)
    ensures var seg := Strip(sentence);
            GreedyBounds(Open(PackStep(st, sentence)), frags + if seg == "" then [] else [seg], b')
  {
    var seg := Strip(sentence);
    var st' := PackStep(st, sentence);
    var frags' := frags + if seg == "" then [] else [seg];
    if seg == "" {
      assert frags' == frags && st' == st;
      b' := b;
    } else if st.current == "" {
      assert st' == Packing(seg, if |seg| > MaxPacked then [""] else []);
      assert Open(st') == if |seg| > MaxPacked then ["", seg] else [seg];
      assert frags' == [seg];
      b' := BoundsStart(seg);
    } else {
      assert st' == Place(st, seg);
      b' := BoundsPlace(st, frags, b, seg);
    }
  }

  /** A fragment either closes the part being built or joins it; the boundaries follow. */
  lemma {:induction false} BoundsPlace(st: Packing, frags: seq<string>, b: seq<nat>, seg: string)
    returns (b': seq<nat>)
    requires st.current != "" && GreedyBounds(Open(st), frags, b)
    ensures GreedyBounds(Open(Place(st, seg)), frags + [seg], b')
  {
    var a := Open(st);
    var m := |st.parts|;
    assert a[m] == st.current && a[..m] == st.parts;
    if |Tentative(st.current, seg)| + ReservedOverhead > SoftLimit {
      BoundsClose(a, frags, b, seg);
      b' := b + [|frags| + 1];
      assert Open(Place(st, seg)) == a + [seg];
    } else {
      BoundsExtend(a, frags, b, seg);
      b' := b[..m + 1] + [|frags| + 1];
      assert Open(Place(st, seg)) == a[..m] + [st.current + Delimiter + seg];
    }
  }

  /** The packing loop has boundaries on every prefix of the sentences. */
  lemma {:induction false} PackPrefixBounds(sentences: seq<string>, i: nat) returns (b: seq<nat>)
    requires i <= |sentences|
    ensures GreedyBounds(Open(PackPrefix(sentences, i)), Fragments(sentences, i), b)
  {
    b := [0, 0];
    assert Open(PackPrefix(sentences, 0)) == [""];
    for j := 0 to i
      invariant GreedyBounds(Open(PackPrefix(sentences, j)), Fragments(sentences, j), b)
    {
      b := PrefixBoundsStep(sentences, j, b);
    }
  }

  /** One turn of the packing loop extends the boundaries. */
  lemma {:induction false} PrefixBoundsStep(sentences: seq<string>, j: nat, b: seq<nat>) returns (b': seq<nat>)
    requires j < |sentences|
    requires GreedyBounds(Open(PackPrefix(sentences, j)), Fragments(sentences, j), b)
    ensures GreedyBounds(Open(PackPrefix(sentences, j + 1)), Fragments(sentences, j + 1), b')
  {
    var st, frags := PackPrefix(sentences, j), Fragments(sentences, j);
    PackPrefixInv(sentences, j);
    assert st.current == "" ==> frags == [] && st.parts == [];
    var seg := Strip(sentences[j]);
    assert PackPrefix(sentences, j + 1) == PackStep(st, sentences[j]);
    assert Fragments(sentences, j + 1) == frags + if seg == "" then [] else [seg];
    b' := BoundsStep(st, frags, b, sentences[j]);
  }

  /** Greedy packing cuts the fragments into runs of consecutive fragments and closes a part
      only when the next fragment would push it past 245 characters. */
  lemma {:induction false} GreedyHasBounds(sentences: seq<string>)
    ensures exists b :: GreedyBounds(Greedy(sentences), Fragments(sentences, |sentences|), b)
  {
    var n := |sentences|;
    PackPrefixInv(sentences, n);
    var b := PackPrefixBounds(sentences, n);
    var st := PackPrefix(sentences, n);
    if st.current == "" {
      assert Greedy(sentences) == [];
      b := [0];
    } else {
      assert Greedy(sentences) == Open(st);
    }
    assert GreedyBounds(Greedy(sentences), Fragments(sentences, n), b);
  }

  /** The first part is the spurious empty one exactly when the first fragment alone is longer
      than 245 characters. */
  predicate FirstPartRule(g: seq<string>, frags: seq<string>) {
    (g != [] && g[0] == "") <==> (frags != [] && |frags[0]| > MaxPacked)
  }

  /** Appending the next fragment to a run of fragments that starts with a non-empty one is
      the run one longer. */
  lemma {:induction false} JoinRunStep(frags: seq<string>, p: nat, q: nat)
    ensures p < q < |frags| && frags[p] != "" ==>
              Tentative(Join(frags[p..q], Delimiter), frags[q]) == Join(frags[p..q + 1], Delimiter)
  {
    if p < q < |frags| && frags[p] != "" {
      var run := frags[p..q];
      assert frags[p..q + 1] == run + [frags[q]];
      JoinSnoc(run, frags[q], Delimiter);
      assert run[0] == frags[p];
    }
  }

  /** A longer run of fragments joins to a string at least as long. */
  lemma {:induction false} JoinRunLonger(frags: seq<string>, p: nat, q: nat, r: nat)
    ensures p < q <= r <= |frags| ==>
              |Join(frags[p..q], Delimiter)| <= |Join(frags[p..r], Delimiter)|
    decreases r - q
  {
    if p < q < r <= |frags| {
      JoinRunLonger(frags, p, q + 1, r);
      assert frags[p..q + 1] == frags[p..q] + [frags[q]];
      JoinSnoc(frags[p..q], frags[q], Delimiter);
    }
  }

  /** A run starting with a non-empty fragment joins to a non-empty string. */
  lemma {:induction false} JoinRunNonEmpty(frags: seq<string>, p: nat, q: nat)
    ensures p < q <= |frags| && frags[p] != "" ==> Join(frags[p..q], Delimiter) != ""
  {
    if p < q <= |frags| && frags[p] != "" {
      assert frags[p..q][0] == frags[p];
    }
  }

  /** What the boundary rules say about part `k`. */
  lemma {:induction false} PartFacts(g: seq<string>, frags: seq<string>, b: seq<nat>, k: nat)
    requires GreedyBounds(g, frags, b) && k < |g|
    ensures b[k] <= b[k + 1] <= |frags| && g[k] == Join(frags[b[k]..b[k + 1]], Delimiter)
    ensures k < |g| - 1 ==> b[k + 1] < |frags| && |Tentative(g[k], frags[b[k + 1]])| > MaxPacked
    ensures k == |g| - 1 ==> b[k + 1] == |frags|
    ensures b[k] + 1 < b[k + 1] ==> |g[k]| <= MaxPacked
    ensures 0 < k ==> b[k] < b[k + 1]
  {
  }

  /** Only the first boundary can be the start of the fragments, and no fragments give no
      parts. */
  lemma {:induction false} BoundsEdges(g: seq<string>, frags: seq<string>, b: seq<nat>, j: nat)
    requires GreedyBounds(g, frags, b) && FirstPartRule(g, frags)
    ensures 0 < j < |g| ==> b[j] < |frags|
    ensures frags == [] ==> g == []
  {
    assert 0 < j < |g| ==> b[j] < b[j + 1] <= |frags|;
    assert frags[0..0] == [] && Join([], Delimiter) == "";
  }

  /** Two boundary sequences that agree on where part `k` starts agree on where it ends: the
      greedy rule leaves no choice. */
  lemma {:induction false} BoundNotBefore(gA: seq<string>, bA: seq<nat>, gB: seq<string>, bB: seq<nat>,
                                          frags: seq<string>, k: nat)
    requires forall i :: 0 <= i < |frags| ==> frags[i] != ""
    requires GreedyBounds(gA, frags, bA) && FirstPartRule(gA, frags)
    requires GreedyBounds(gB, frags, bB) && FirstPartRule(gB, frags)
    requires k < |gA| && k < |gB| && bA[k] == bB[k]
    ensures bB[k + 1] <= bA[k + 1]
  {
    var p, qA, qB := bA[k], bA[k + 1], bB[k + 1];
    PartFacts(gA, frags, bA, k);
    PartFacts(gB, frags, bB, k);
    // when part `k` of `A` is a non-empty run closed before `B`'s, the fragment that closed it
    // makes a run that is a prefix of `B`'s part `k`, which fits: but it overflowed
    JoinRunStep(frags, p, qA);
    JoinRunLonger(frags, p, qA + 1, qB);
    // an empty run is only the spurious first part, and then `B[0]` is empty as well
    assert frags[0..0] == [] && Join([], Delimiter) == "";
    JoinRunNonEmpty(frags, 0, qB);
  }

  /** Boundary sequences that agree on every boundary they share have the same length: one
      that stopped early would leave fragments uncovered or give the other an empty part. */
  lemma {:induction false} CountNotLess(gA: seq<string>, bA: seq<nat>, gB: seq<string>, bB: seq<nat>,
                                        frags: seq<string>)
    requires GreedyBounds(gA, frags, bA) && FirstPartRule(gA, frags)
    requires GreedyBounds(gB, frags, bB) && FirstPartRule(gB, frags)
    requires forall j :: 0 <= j < |bA| && j < |bB| ==> bA[j] == bB[j]
    ensures |gB| <= |gA|
  {
    BoundsEdges(gB, frags, bB, |gA|);
    assert bA[|gA|] == |frags|;
  }

  /** The greedy rules determine the parts: two part lists that both follow them are equal. */
  lemma {:induction false} BoundsAgree(gA: seq<string>, bA: seq<nat>, gB: seq<string>, bB: seq<nat>,
                                       frags: seq<string>)
    requires forall i :: 0 <= i < |frags| ==> frags[i] != ""
    requires GreedyBounds(gA, frags, bA) && FirstPartRule(gA, frags)
    requires GreedyBounds(gB, frags, bB) && FirstPartRule(gB, frags)
    ensures gA == gB
  {
    var n := if |gA| < |gB| then |gA| else |gB|;
    for k := 0 to n
      invariant forall j :: 0 <= j <= k ==> bA[j] == bB[j]
    {
      BoundNotBefore(gA, bA, gB, bB, frags, k);
      BoundNotBefore(gB, bB, gA, bA, frags, k);
    }
    CountNotLess(gA, bA, gB, bB, frags);
    CountNotLess(gB, bB, gA, bA, frags);
    forall k | 0 <= k < |gA| ensures gA[k] == gB[k] {
      assert bA[k] == bB[k] && bA[k + 1] == bB[k + 1];
    }
  }

  /** The rules characterise greedy packing: any list of parts that cuts the fragments into
      runs this way, closes a part only on overflow and keeps the empty-first-part rule is
      exactly what packing produces. */
  lemma {:induction false} GreedyUnique(sentences: seq<string>, g: seq<string>, b: seq<nat>)
    requires GreedyBounds(g, Fragments(sentences, |sentences|), b)
    requires FirstPartRule(g, Fragments(sentences, |sentences|))
    ensures g == Greedy(sentences)
  {
    var frags := Fragments(sentences, |sentences|);
    GreedyHasBounds(sentences);
    GreedyShape(sentences);
    var b' :| GreedyBounds(Greedy(sentences), frags, b');
    BoundsAgree(g, b, Greedy(sentences), b', frags);
  }

  /** The rules of greedy packing, stated on its result. Every part is stripped; only the first
      part can be empty, and it is empty exactly when the first fragment alone is longer than
      245 characters; a part longer than 245 characters is a single fragment; and joining the
      non-spurious parts with ". " gives back exactly the fragments joined with ". ", so packing
      neither loses, duplicates nor reorders text. `GreedyHasBounds` adds when parts are closed. */
  lemma {:induction false} GreedyShape(sentences: seq<string>)
    ensures var g, frags := Greedy(sentences), Fragments(sentences, |sentences|);
      && (g != [] <==> frags != [])
      && (forall k :: 0 < k < |g| ==> g[k] != "")
      && FirstPartRule(g, frags)
      && (forall k :: 0 <= k < |g| ==> Trimmed(g[k]) && (|g[k]| <= MaxPacked || g[k] in frags))
      && Join(WithoutLeadingEmpty(g), Delimiter) == Join(frags, Delimiter)
  {
    var n := |sentences|;
    PackPrefixInv(sentences, n);
    var st := PackPrefix(sentences, n);
    if st.current != "" {
      assert Greedy(sentences) == st.parts + [st.current];
    }
  }

  /** A stripped piece of a string without ". " has no ". " either. */
  lemma {:induction false} StripNoOccurrence(t: string, sep: string)
    requires NoOccurrence(t, sep)
    ensures NoOccurrence(Strip(t), sep)
  {
    var r := Strip(t);
    StripIsStrippedFrom(t);
    var i :| 0 <= i <= |t| - |r| && t[i..i + |r|] == r
             && AllWhitespace(t[..i]) && AllWhitespace(t[i + |r|..]);
    NoOccurrenceInside(t, r, i, sep);
  }

  /** A piece of a string without `sep` has no `sep` either. */
  lemma {:induction false} NoOccurrenceInside(t: string, r: string, i: nat, sep: string)
    requires NoOccurrence(t, sep) && i + |r| <= |t| && t[i..i + |r|] == r
    ensures NoOccurrence(r, sep)
  {
    forall j | 0 <= j <= |r| ensures !OccursAt(r, sep, j) {
      OccursInside(t, r, i, sep, j);
    }
  }

  /** An occurrence inside a piece of `t` is an occurrence in `t`. */
  lemma {:induction false} OccursInside(t: string, r: string, i: nat, sep: string, j: nat)
    requires i + |r| <= |t| && t[i..i + |r|] == r
    ensures OccursAt(r, sep, j) ==> OccursAt(t, sep, i + j)
  {
    if OccursAt(r, sep, j) {
      forall k | 0 <= k < |sep| ensures t[i + j + k] == sep[k] {
        assert t[i + j + k] == r[j + k] == r[j..j + |sep|][k];
      }
      assert t[i + j..i + j + |sep|] == sep;
    }
  }

  /** Fragments of a summary never contain the delimiter, so a part that does is a join of two
      or more fragments. */
  lemma {:induction false} FragmentsHaveNoDelimiter(sentences: seq<string>, i: nat)
    requires i <= |sentences|
    requires forall k :: 0 <= k < |sentences| ==> NoOccurrence(sentences[k], Delimiter)
    ensures forall k :: 0 <= k < |Fragments(sentences, i)| ==>
              NoOccurrence(Fragments(sentences, i)[k], Delimiter)
  {
    if i > 0 {
      FragmentsHaveNoDelimiter(sentences, i - 1);
      StripNoOccurrence(sentences[i - 1], Delimiter);
    }
  }

  /** The sentences of a summary: `summary.strip().split('. ')`. */
  function Sentences(summary: string): seq<string> {
    SplitOn(Strip(summary), Delimiter)
  }

  /** The parts greedy packing makes of a summary. */
  function Packed(summary: string): seq<string> {
    Greedy(Sentences(summary))
  }

  /** The fragments of a summary that packing consumes. */
  function SummaryFragments(summary: string): seq<string> {
    Fragments(Sentences(summary), |Sentences(summary)|)
  }

  /** A summary that is not blank packs into at least one part, so the split loop never asks
      for the longest of no parts. */
  lemma {:induction false} PackedNonEmpty(summary: string)
    requires !AllWhitespace(summary)
    ensures SummaryFragments(summary) != [] && Packed(summary) != []
  {
    FragmentsNonEmpty(summary);
    GreedyShape(Sentences(summary));
  }

  /** The last sentence of a summary that is not blank ends in its last non-whitespace
      character, so it yields a fragment. */
  lemma {:induction false} FragmentsNonEmpty(summary: string)
    requires !AllWhitespace(summary)
    ensures SummaryFragments(summary) != []
  {
    var text := Strip(summary);
    StripEmpty(summary);
    var sentences := Sentences(summary);
    var n := |sentences|;
    var last := sentences[n - 1];
    assert Trimmed(text) && text != [];
    assert IsWhitespace(Delimiter[|Delimiter| - 1]);
    SplitOnLastKeepsLast(text, Delimiter);
    assert last != [] && !IsWhitespace(last[|last| - 1]);
    StripKeepsLast(last);
    assert Strip(last) != "";
    assert Fragments(sentences, n) == Fragments(sentences, n - 1) + [Strip(last)];
  }

  /** The packing rules on a whole summary: a part longer than 245 characters is one fragment
      and holds no ". ", hence no part joining two or more fragments exceeds 245. */
  lemma {:induction false} PackedLongPartsAreFragments(summary: string)
    ensures forall k :: 0 <= k < |Packed(summary)| && |Packed(summary)[k]| > MaxPacked ==>
              Packed(summary)[k] in SummaryFragments(summary)
              && NoOccurrence(Packed(summary)[k], Delimiter)
  {
    var sentences := Sentences(summary);
    GreedyShape(sentences);
    SplitOnPieces(Strip(summary), Delimiter);
    FragmentsHaveNoDelimiter(sentences, |sentences|);
  }

  // ---------------------------------------------------------------------------------------
  // Splitting

  /** `max(range(len(parts)), key=lambda i: len(parts[i]))`: the first index of a longest part. */
  function LongestIndex(parts: seq<string>): (k: nat)
    requires parts != []
    ensures k < |parts|
    ensures forall j :: 0 <= j < |parts| ==> |parts[j]| <= |parts[k]|
    ensures forall j :: 0 <= j < k ==> |parts[j]| < |parts[k]|
  {
    if |parts| == 1 then 0
    else
      var k := LongestIndex(parts[..|parts| - 1]);
      if |parts[k]| < |parts[|parts| - 1]| then |parts| - 1 else k
  }

  /** Part `idx` replaced in place by its two stripped halves, cut at `len // 2`. */
  function SplitAt(parts: seq<string>, idx: nat): (r: seq<string>)
    requires idx < |parts|
    ensures |r| == |parts| + 1
  {
    var p := parts[idx];
    var half := |p| / 2;
    parts[..idx] + [Strip(p[..half]), Strip(p[half..])] + parts[idx + 1..]
  }

  /** Where one split puts each part: the parts before `idx` stay, the parts after it move one
      place right, and part `idx` becomes its two stripped halves. */
  lemma {:induction false} SplitAtFrame(parts: seq<string>, idx: nat)
    requires idx < |parts|
    ensures var r, p := SplitAt(parts, idx), parts[idx];
      && (forall k :: 0 <= k < idx ==> r[k] == parts[k])
      && (forall k :: idx + 1 < k < |r| ==> r[k] == parts[k - 1])
      && r[idx] == Strip(p[..|p| / 2]) && r[idx + 1] == Strip(p[|p| / 2..])
  {
    var p := parts[idx];
    var front := parts[..idx] + [Strip(p[..|p| / 2]), Strip(p[|p| / 2..])];
    var back := parts[idx + 1..];
    var r := SplitAt(parts, idx);
    assert r == front + back;
    forall k | 0 <= k < idx ensures r[k] == parts[k] {
      assert r[k] == front[k] == parts[..idx][k];
    }
    forall k | idx + 1 < k < |r| ensures r[k] == parts[k - 1] {
      assert r[k] == back[k - |front|];
    }
  }

  /** What one split does: the parts before `idx` stay, the parts after it move one place
      right, and part `idx` becomes its two halves, each stripped of the whitespace at its
      ends only, each at most half (rounded up) as long, the second one non-empty when a
      stripped part is cut. */
  lemma {:induction false} SplitAtShape(parts: seq<string>, idx: nat)
    requires idx < |parts|
    ensures var r, p := SplitAt(parts, idx), parts[idx];
      && (forall k :: 0 <= k < idx ==> r[k] == parts[k])
      && (forall k :: idx + 1 < k < |r| ==> r[k] == parts[k - 1])
      && StrippedFrom(r[idx], p[..|p| / 2]) && StrippedFrom(r[idx + 1], p[|p| / 2..])
      && |r[idx]| <= |p| / 2 && |r[idx + 1]| <= |p| - |p| / 2
      && (Trimmed(p) && p != "" ==> r[idx + 1] != "")
  {
    var p := parts[idx];
    SplitAtFrame(parts, idx);
    SecondHalfNonEmpty(p);
    StripIsStrippedFrom(p[..|p| / 2]);
    StripIsStrippedFrom(p[|p| / 2..]);
  }

  /** Popping part `idx` and inserting its two halves at `idx` and `idx + 1`, as the split
      loop does, is `SplitAt`. */
  lemma {:induction false} PopInsertInsert(parts: seq<string>, idx: nat)
    requires idx < |parts|
    ensures var p := parts[idx];
            var popped := parts[..idx] + parts[idx + 1..];
            var once := popped[..idx] + [Strip(p[..|p| / 2])] + popped[idx..];
            once[..idx + 1] + [Strip(p[|p| / 2..])] + once[idx + 1..] == SplitAt(parts, idx)
  {
    var p := parts[idx];
    var popped := parts[..idx] + parts[idx + 1..];
    assert popped[..idx] == parts[..idx] && popped[idx..] == parts[idx + 1..];
    var once := popped[..idx] + [Strip(p[..|p| / 2])] + popped[idx..];
    assert once[..idx + 1] == parts[..idx] + [Strip(p[..|p| / 2])];
    assert once[idx + 1..] == parts[idx + 1..];
  }

  /** The second half of a stripped, non-empty part keeps its last character. */
  lemma {:induction false} SecondHalfNonEmpty(p: string)
    ensures Trimmed(p) && p != "" ==> Strip(p[|p| / 2..]) != ""
  {
    if Trimmed(p) && p != "" { StripKeepsLast(p[|p| / 2..]); }
  }

  /** One pass of the split loop. */
  function SplitStep(parts: seq<string>): seq<string>
    requires parts != []
  {
    SplitAt(parts, LongestIndex(parts))
  }

  /** The split loop: split the longest part until there are `n`. */
  function SplitAll(parts: seq<string>, n: int): (r: seq<string>)
    requires parts != []
    ensures |r| == if |parts| < n then n else |parts|
    decreases n - |parts|
  {
    if |parts| >= n then parts else SplitAll(SplitStep(parts), n)
  }

  ghost predicate AllTrimmed(ps: seq<string>) {
    forall k :: 0 <= k < |ps| ==> Trimmed(ps[k])
  }

  /** Every part is at most `bound` long. */
  ghost predicate Bounded(ps: seq<string>, bound: int) {
    forall k :: 0 <= k < |ps| ==> |ps[k]| <= bound
  }

  /** A split step keeps the parts stripped and makes none longer than the one it cut. */
  lemma {:induction false} SplitStepShape(parts: seq<string>, bound: int)
    requires parts != [] && AllTrimmed(parts) && Bounded(parts, bound)
    ensures AllTrimmed(SplitStep(parts)) && Bounded(SplitStep(parts), bound)
  {
    var idx := LongestIndex(parts);
    var r := SplitAt(parts, idx);
    SplitAtFrame(parts, idx);
    forall k | 0 <= k < |r| ensures Trimmed(r[k]) && |r[k]| <= bound {
      if k > idx + 1 { assert r[k] == parts[k - 1]; }
    }
  }

  /** The split loop keeps every part stripped and never produces a part longer than the
      longest it started with. */
  lemma {:induction false} SplitAllShape(parts: seq<string>, n: int, bound: int)
    requires parts != [] && AllTrimmed(parts) && Bounded(parts, bound)
    ensures AllTrimmed(SplitAll(parts, n)) && Bounded(SplitAll(parts, n), bound)
    decreases n - |parts|
  {
    if |parts| < n {
      SplitStepShape(parts, bound);
      SplitAllShape(SplitStep(parts), n, bound);
    }
  }

  ghost predicate SomeNonEmpty(ps: seq<string>) {
    exists k :: 0 <= k < |ps| && ps[k] != ""
  }

  /** An empty first part is never the longest while some part is not empty, so it survives
      every split. */
  lemma {:induction false} SplitAllKeepsEmptyHead(parts: seq<string>, n: int)
    requires parts != [] && parts[0] == "" && AllTrimmed(parts) && SomeNonEmpty(parts)
    ensures SplitAll(parts, n)[0] == ""
    decreases n - |parts|
  {
    if |parts| < n {
      SplitStepKeepsEmptyHead(parts);
      SplitAllKeepsEmptyHead(SplitStep(parts), n);
    }
  }

  /** One split keeps an empty first part first, empty, and not alone. */
  lemma {:induction false} SplitStepKeepsEmptyHead(parts: seq<string>)
    requires parts != [] && parts[0] == "" && AllTrimmed(parts) && SomeNonEmpty(parts)
    ensures var r := SplitStep(parts);
            r != [] && r[0] == "" && AllTrimmed(r) && SomeNonEmpty(r)
  {
    var idx := LongestIndex(parts);
    var k :| 0 <= k < |parts| && parts[k] != "";
    assert |parts[idx]| >= |parts[k]| > 0;
    var r := SplitAt(parts, idx);
    SplitAtFrame(parts, idx);
    SecondHalfNonEmpty(parts[idx]);
    assert idx > 0;
    assert r[idx + 1] != "";
    SplitStepShape(parts, |parts[idx]|);
  }

  /** Splitting a part loses no text: its two stripped halves hold all of its non-whitespace
      characters, in order. */
  lemma {:induction false} SplitAtKeepsText(parts: seq<string>, idx: nat)
    requires idx < |parts|
    ensures NonWhitespace(Concat(SplitAt(parts, idx))) == NonWhitespace(Concat(parts))
  {
    var p := parts[idx];
    var half := |p| / 2;
    var x, y := Strip(p[..half]), Strip(p[half..]);
    assert parts == parts[..idx] + [p] + parts[idx + 1..];
    assert p == p[..half] + p[half..];
    ConcatPair(x, y);
    ConcatPair(p, p);
    NonWhitespaceAppend(x, y);
    NonWhitespaceAppend(p[..half], p[half..]);
    NonWhitespaceStrip(p[..half]);
    NonWhitespaceStrip(p[half..]);
    ReplaceKeepsText(parts[..idx], [p], [x, y], parts[idx + 1..]);
  }

  /** The split loop loses no text. */
  lemma {:induction false} SplitAllKeepsText(parts: seq<string>, n: int)
    requires parts != []
    ensures NonWhitespace(Concat(SplitAll(parts, n))) == NonWhitespace(Concat(parts))
    decreases n - |parts|
  {
    if |parts| < n {
      SplitAtKeepsText(parts, LongestIndex(parts));
      SplitAllKeepsText(SplitStep(parts), n);
    }
  }

  // ---------------------------------------------------------------------------------------
  // Merging

  /** The combined length of the adjacent pair at `i`. */
  function PairLength(parts: seq<string>, i: nat): int
    requires i + 1 < |parts|
  {
    |parts[i]| + |parts[i + 1]|
  }

  /** `min(range(len(parts) - 1), key=lambda i: len(parts[i]) + len(parts[i + 1]))`: the first
      adjacent pair of smallest combined length. */
  function MergeIndex(parts: seq<string>): (i: nat)
    requires |parts| >= 2
    ensures i + 1 < |parts|
    ensures forall j :: 0 <= j < |parts| - 1 ==> PairLength(parts, i) <= PairLength(parts, j)
    ensures forall j :: 0 <= j < i ==> PairLength(parts, i) < PairLength(parts, j)
  {
    if |parts| == 2 then 0
    else
      var prefix := parts[..|parts| - 1];
      var i := MergeIndex(prefix);
      assert forall j :: 0 <= j < |prefix| - 1 ==> PairLength(prefix, j) == PairLength(parts, j);
      if PairLength(parts, |parts| - 2) < PairLength(parts, i) then |parts| - 2 else i
  }

  /** The pair at `i` replaced in place by `(parts[i] + ' ' + parts[i + 1]).strip()`. */
  function MergeAt(parts: seq<string>, i: nat): (r: seq<string>)
    requires i + 1 < |parts|
    ensures |r| == |parts| - 1
  {
    parts[..i] + [Strip(parts[i] + " " + parts[i + 1])] + parts[i + 2..]
  }

  /** Where one merge puts each part: the parts before `i` stay, the parts after the pair
      move one place left, and the pair becomes `(parts[i] + ' ' + parts[i + 1]).strip()`. */
  lemma {:induction false} MergeAtFrame(parts: seq<string>, i: nat)
    requires i + 1 < |parts|
    ensures var r := MergeAt(parts, i);
      && (forall k :: 0 <= k < i ==> r[k] == parts[k])
      && (forall k :: i < k < |r| ==> r[k] == parts[k + 1])
      && r[i] == Strip(parts[i] + " " + parts[i + 1])
  {
    var front := parts[..i] + [Strip(parts[i] + " " + parts[i + 1])];
    var back := parts[i + 2..];
    var r := MergeAt(parts, i);
    assert r == front + back;
    forall k | 0 <= k < i ensures r[k] == parts[k] {
      assert r[k] == front[k] == parts[..i][k];
    }
    forall k | i < k < |r| ensures r[k] == parts[k + 1] {
      assert r[k] == back[k - |front|];
    }
  }

  /** What one merge does: the parts before `i` stay, the parts after the pair move one place
      left, and the pair becomes one part: the two joined by a space and stripped at the ends
      only, so at most one character longer than the two together; for stripped parts that is
      exactly the two joined by a space, with an empty side dropped. */
  lemma {:induction false} MergeAtShape(parts: seq<string>, i: nat)
    requires i + 1 < |parts|
    ensures var r, a, b := MergeAt(parts, i), parts[i], parts[i + 1];
      && (forall k :: 0 <= k < i ==> r[k] == parts[k])
      && (forall k :: i < k < |r| ==> r[k] == parts[k + 1])
      && StrippedFrom(r[i], a + " " + b)
      && |r[i]| <= |a| + |b| + 1
      && (Trimmed(a) && Trimmed(b) ==>
            r[i] == if a == "" then b else if b == "" then a else a + " " + b)
  {
    MergeAtFrame(parts, i);
    MergeOfTrimmed(parts[i], parts[i + 1]);
    StripIsStrippedFrom(parts[i] + " " + parts[i + 1]);
  }

  /** Joining two stripped parts with a space and stripping again only drops an empty side. */
  lemma {:induction false} MergeOfTrimmed(a: string, b: string)
    ensures Trimmed(a) && Trimmed(b) ==>
              Strip(a + " " + b) == if a == "" then b else if b == "" then a else a + " " + b
  {
    var s := a + " " + b;
    if !(Trimmed(a) && Trimmed(b)) {
    } else if a == "" && b == "" {
      assert AllWhitespace(s);
      StripEmpty(s);
    } else if a == "" {
      assert s == " " + b && s[1..] == b && s[..1] == " " && s[1 + |b|..] == [];
      StrippedFromAt(b, s, 1);
      StripIsStrippedFrom(s);
      StrippedFromUnique(Strip(s), b, s);
    } else if b == "" {
      assert s[0..|a|] == a && s[..0] == [] && s[|a|..] == " ";
      StrippedFromAt(a, s, 0);
      StripIsStrippedFrom(s);
      StrippedFromUnique(Strip(s), a, s);
    } else {
      assert s[0] == a[0] && s[|s| - 1] == b[|b| - 1];
      StripTrimmed(s);
    }
  }

  /** One pass of the merge loop. */
  function MergeStep(parts: seq<string>): seq<string>
    requires |parts| >= 2
  {
    MergeAt(parts, MergeIndex(parts))
  }

  /** The merge loop: merge the cheapest adjacent pair while there are more than `n` parts,
      stopping early at a single part. */
  function MergeAll(parts: seq<string>, n: int): (r: seq<string>)
    ensures |r| == if |parts| <= n || |parts| < 2 then |parts| else if n < 1 then 1 else n
    decreases |parts|
  {
    if |parts| <= n || |parts| < 2 then parts else MergeAll(MergeStep(parts), n)
  }

  /** A merge step keeps every part stripped. */
  lemma {:induction false} MergeStepTrimmed(parts: seq<string>)
    requires |parts| >= 2 && AllTrimmed(parts)
    ensures AllTrimmed(MergeStep(parts))
  {
    var i := MergeIndex(parts);
    MergeAtFrame(parts, i);
    var r := MergeStep(parts);
    forall k | 0 <= k < |r| ensures Trimmed(r[k]) {
      if k > i { assert r[k] == parts[k + 1]; }
    }
  }

  /** The merge loop keeps every part stripped. */
  lemma {:induction false} MergeAllTrimmed(parts: seq<string>, n: int)
    requires AllTrimmed(parts)
    ensures AllTrimmed(MergeAll(parts, n))
    decreases |parts|
  {
    if !(|parts| <= n || |parts| < 2) {
      MergeStepTrimmed(parts);
      MergeAllTrimmed(MergeStep(parts), n);
    }
  }

  /** Merging a pair loses no text: only the space put between the two parts, and whitespace
      stripped from the ends, is not kept. */
  lemma {:induction false} MergeAtKeepsText(parts: seq<string>, i: nat)
    requires i + 1 < |parts|
    ensures NonWhitespace(Concat(MergeAt(parts, i))) == NonWhitespace(Concat(parts))
  {
    var x, y := parts[i], parts[i + 1];
    var m := Strip(x + " " + y);
    assert parts == parts[..i] + [x, y] + parts[i + 2..];
    ConcatPair(x, y);
    ConcatPair(m, m);
    NonWhitespaceStrip(x + " " + y);
    NonWhitespaceSpaced(x, y);
    ReplaceKeepsText(parts[..i], [x, y], [m], parts[i + 2..]);
  }

  /** The merge loop loses no text. */
  lemma {:induction false} MergeAllKeepsText(parts: seq<string>, n: int)
    ensures NonWhitespace(Concat(MergeAll(parts, n))) == NonWhitespace(Concat(parts))
    decreases |parts|
  {
    if !(|parts| <= n || |parts| < 2) {
      MergeAtKeepsText(parts, MergeIndex(parts));
      MergeAllKeepsText(MergeStep(parts), n);
    }
  }

  // ---------------------------------------------------------------------------------------
  // The whole assembler

  /** `_chunk_text(summary, n)`. For a blank summary, `n` empty parts; otherwise the greedy
      parts, split or merged to exactly `n`, then cut to `parts[:n]`. */
  function Chunk(summary: string, n: int): (r: seq<string>)
    ensures |r| == if n > 0 then n else 0
    ensures AllWhitespace(summary) ==> forall k :: 0 <= k < |r| ==> r[k] == ""
    ensures !AllWhitespace(summary) && |Packed(summary)| == n ==> r == Packed(summary)
  {
    StripEmpty(summary);
    if Strip(summary) == "" then Repeat("", n)
    else
      PackedNonEmpty(summary);
      var packed := Packed(summary);
      SliceTo(MergeAll(SplitAll(packed, n), n), n)
  }

  /** Every part the assembler returns is stripped. */
  lemma {:induction false} ChunkTrimmed(summary: string, n: int)
    ensures forall k :: 0 <= k < |Chunk(summary, n)| ==> Trimmed(Chunk(summary, n)[k])
  {
    if !AllWhitespace(summary) {
      PackedNonEmpty(summary);
      var packed := Packed(summary);
      GreedyShape(Sentences(summary));
      var bound := |packed[LongestIndex(packed)]|;
      SplitAllShape(packed, n, bound);
      MergeAllTrimmed(SplitAll(packed, n), n);
    }
  }

  /** When the summary packs into no more than `n` parts, no part is longer than the longest
      greedy part: splitting only ever shortens. */
  lemma {:induction false} ChunkSplitBounded(summary: string, n: int, bound: int)
    requires !AllWhitespace(summary)
    requires |Packed(summary)| <= n && Bounded(Packed(summary), bound)
    ensures Bounded(Chunk(summary, n), bound)
  {
    PackedNonEmpty(summary);
    var packed := Packed(summary);
    GreedyShape(Sentences(summary));
    SplitAllShape(packed, n, bound);
  }

  /** The spurious empty part: when the first fragment alone is longer than 245 characters and
      packing leaves no more than `n` parts, the first part returned is empty. */
  lemma {:induction false} ChunkEmptyHead(summary: string, n: int)
    requires !AllWhitespace(summary)
    requires SummaryFragments(summary) != [] && |SummaryFragments(summary)[0]| > MaxPacked
    requires |Packed(summary)| <= n
    ensures 0 < |Chunk(summary, n)| && Chunk(summary, n)[0] == ""
  {
    PackedNonEmpty(summary);
    var packed := Packed(summary);
    GreedyShape(Sentences(summary));
    assert packed[0] == "";
    // the joined non-spurious parts are the fragments, which are not empty
    assert |packed| > 1;
    assert packed[1] != "";
    SplitAllKeepsEmptyHead(packed, n);
  }

  /** Splitting and merging lose no text: for at least one part the assembler's parts hold
      exactly the non-whitespace characters of the greedy parts, in order (a blank summary has
      none). */
  lemma {:induction false} ChunkKeepsText(summary: string, n: int)
    requires n >= 1
    ensures !AllWhitespace(summary) ==>
              NonWhitespace(Concat(Chunk(summary, n))) == NonWhitespace(Concat(Packed(summary)))
    ensures AllWhitespace(summary) ==> NonWhitespace(Concat(Chunk(summary, n))) == []
  {
    StripEmpty(summary);
    if Strip(summary) == "" {
      ConcatEmpty(Chunk(summary, n));
      assert NonWhitespace("") == [];
    } else {
      PackedNonEmpty(summary);
      var packed := Packed(summary);
      var split := SplitAll(packed, n);
      SplitAllKeepsText(packed, n);
      MergeAllKeepsText(split, n);
      assert SliceTo(MergeAll(split, n), n) == MergeAll(split, n);
    }
  }

  // ---------------------------------------------------------------------------------------
  // The assembler as the source runs it

  /** The packing loop of `_chunk_text`: greedy packing of the sentences. */
  method PackSentences(sentences: seq<string>) returns (parts: seq<string>)
    ensures parts == Greedy(sentences)
  {
    parts := [];
    var current := "";
    for i := 0 to |sentences|
      invariant Packing(current, parts) == PackPrefix(sentences, i)
    {
      var seg := Strip(sentences[i]);
      if seg == "" {
        continue;
      }
      var tentative;
      if current != "" {
        tentative := current + Delimiter + seg;
      } else {
        tentative := seg;
      }
      if |tentative| + ReservedOverhead > SoftLimit {
        parts := parts + [current];
        current := seg;
      } else {
        current := tentative;
      }
    }
    if current != "" {
      parts := parts + [current];
    }
  }

  /** The splitting loop of `_chunk_text`: halve the longest part until there are `nParts`. */
  method SplitLongest(packed: seq<string>, nParts: int) returns (parts: seq<string>)
    requires packed != []
    ensures parts == SplitAll(packed, nParts)
  {
    parts := packed;
    while |parts| < nParts
      invariant parts != []
      invariant SplitAll(parts, nParts) == SplitAll(packed, nParts)
      decreases nParts - |parts|
    {
      var idx := LongestIndex(parts);
      var part := parts[idx];
      ghost var before := parts;
      parts := parts[..idx] + parts[idx + 1..];                          // parts.pop(idx)
      var half := |part| / 2;
      parts := parts[..idx] + [Strip(part[..half])] + parts[idx..];      // parts.insert(idx, ...)
      parts := parts[..idx + 1] + [Strip(part[half..])] + parts[idx + 1..];
      PopInsertInsert(before, idx);
    }
  }

  /** The merging loop of `_chunk_text`: join the adjacent pair with the smallest combined
      length until there are at most `nParts` parts. */
  method MergeClosest(split: seq<string>, nParts: int) returns (parts: seq<string>)
    ensures parts == MergeAll(split, nParts)
  {
    parts := split;
    while |parts| > nParts
      invariant MergeAll(parts, nParts) == MergeAll(split, nParts)
      decreases |parts|
    {
      if |parts| < 2 {
        break;
      }
      var idx := MergeIndex(parts);
      var merged := Strip(parts[idx] + " " + parts[idx + 1]);
      parts := parts[..idx] + [merged] + parts[idx + 2..];               // parts[idx:idx+2] = [merged]
    }
  }

  /** `_chunk_text` step by step: a loop packing the sentences, a loop splitting the longest
      part, a loop merging the cheapest adjacent pair, and the final `parts[:n_parts]`. */
  method ChunkText(summary: string, nParts: int) returns (parts: seq<string>)
    ensures parts == Chunk(summary, nParts)
    ensures |parts| == if nParts > 0 then nParts else 0
  {
    var text := Strip(summary);
    StripEmpty(summary);
    if text == "" {
      parts := Repeat("", nParts);
      return;
    }
    var sentences := SplitOn(text, Delimiter);
    parts := PackSentences(sentences);
    PackedNonEmpty(summary);
    parts := SplitLongest(parts, nParts);
    parts := MergeClosest(parts, nParts);
    parts := SliceTo(parts, nParts);
  }
}
