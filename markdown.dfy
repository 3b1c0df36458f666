/**
 * The markdown pass of src/main.rs: find_from, and transform_markdown,
 * which replaces every fenced block opened by "```merman\n" and closed by
 * the next "```\n" with the text a generator makes of the block's body.
 * The generator (generate_svg) is a parameter.
 */
module Markdown {
  import opened Wrappers

  const StartMarker: string := "```merman\n"
  const EndMarker: string := "```\n"

  /** p occurs in s starting at position k. */
  predicate OccursAt(s: string, k: nat, p: string) {
    k + |p| <= |s| && s[k..k + |p|] == p
  }

  /** find_from: the first position at or after start where p occurs. */
  function FindFrom(s: string, start: nat, p: string): (r: Option<nat>)
    requires start <= |s|
    ensures r.Some? ==> start <= r.value && OccursAt(s, r.value, p)
    decreases |s| - start
  {
    if start + |p| > |s| then None
    else if OccursAt(s, start, p) then Some(start)
    else FindFrom(s, start + 1, p)
  }

  /** The position find_from returns is the first occurrence at or after start. */
  lemma {:induction false} FindFromFirst(s: string, start: nat, p: string)
    requires start <= |s| && FindFrom(s, start, p).Some?
    ensures forall k :: start <= k < FindFrom(s, start, p).value ==> !OccursAt(s, k, p)
    decreases |s| - start
  {
    if !OccursAt(s, start, p) {
      FindFromFirst(s, start + 1, p);
    }
  }

  /** find_from returns None only when p occurs nowhere at or after start. */
  lemma {:induction false} FindFromNone(s: string, start: nat, p: string)
    requires start <= |s| && FindFrom(s, start, p).None?
    ensures forall k :: start <= k <= |s| ==> !OccursAt(s, k, p)
    decreases |s| - start
  {
    if start + |p| <= |s| {
      FindFromNone(s, start + 1, p);
    }
  }

  /** One recorded replacement: the range [start, end) and the text that replaces it. */
  datatype Replacement = Replacement(start: nat, end: nat, text: string)

  /**
   * Ranges inside s from position `from` on, in ascending order: each
   * starts no earlier than the previous one ends.
   */
  predicate Ordered(s: string, reps: seq<Replacement>, from: nat)
    decreases |reps|
  {
    from <= |s| &&
    (reps != [] ==> from <= reps[0].start <= reps[0].end <= |s| && Ordered(s, reps[1..], reps[0].end))
  }

  /** Every range of an ordered list lies inside s and ends before the next begins. */
  lemma {:induction false} OrderedAt(s: string, reps: seq<Replacement>, from: nat, j: nat)
    requires Ordered(s, reps, from) && 0 < j <= |reps|
    ensures Ordered(s, reps[j..], reps[j - 1].end)
    ensures reps[j - 1].start <= reps[j - 1].end <= |s|
    ensures j == 1 ==> from <= reps[0].start
    ensures 1 < j ==> reps[j - 2].end <= reps[j - 1].start
    decreases j
  {
    if 1 < j {
      OrderedAt(s, reps[1..], reps[0].end, j - 1);
      assert reps[1..][j - 1..] == reps[j..];
    }
  }

  /**
   * The text from position `from` on with the given ranges replaced: the
   * gaps of s interleaved, in order, with the replacement texts.
   */
  function Assemble(s: string, reps: seq<Replacement>, from: nat): string
    requires Ordered(s, reps, from)
    decreases |reps|
  {
    if reps == [] then s[from..]
    else s[from..reps[0].start] + reps[0].text + Assemble(s, reps[1..], reps[0].end)
  }

  /**
   * The next complete block from position i, as one round of the scan
   * finds it: the next opening marker, the first closing marker after it,
   * and the generated text for the body between them.
   */
  function NextBlock(s: string, i: nat, gen: string -> string): (r: Option<Replacement>)
    requires i <= |s|
    ensures r.Some? ==> i <= r.value.start && r.value.start + |StartMarker| + |EndMarker| <= r.value.end <= |s|
  {
    match FindFrom(s, i, StartMarker)
    case None => None
    case Some(a) =>
      match FindFrom(s, a + |StartMarker|, EndMarker)
      case None => None
      case Some(b) => Some(Replacement(a, b + |EndMarker|, gen(s[a + |StartMarker|..b])))
  }

  /**
   * The replacements the scan records from position i: block after block
   * until no complete block is left; an opening marker without a closing
   * one ends the scan.
   */
  function Scan(s: string, i: nat, gen: string -> string): seq<Replacement>
    requires i <= |s|
    decreases |s| - i
  {
    match NextBlock(s, i, gen)
    case None => []
    case Some(r) => [r] + Scan(s, r.end, gen)
  }

  function Reverse(s: seq<Replacement>): (r: seq<Replacement>)
    ensures |r| == |s| && forall k :: 0 <= k < |s| ==> r[k] == s[|s| - 1 - k]
    decreases |s|
  {
    if s == [] then [] else Reverse(s[1..]) + [s[0]]
  }

  // ---------------------------------------------------------------------
  // What the scan records
  // ---------------------------------------------------------------------

  /**
   * The replacement is a complete block of s: an opening marker at its
   * start, the first closing marker after that just before its end, and
   * the generated text for the body between.
   */
  predicate IsBlock(s: string, r: Replacement, gen: string -> string) {
    && r.start + |StartMarker| + |EndMarker| <= r.end <= |s|
    && OccursAt(s, r.start, StartMarker)
    && OccursAt(s, r.end - |EndMarker|, EndMarker)
    && (forall k :: r.start + |StartMarker| <= k < r.end - |EndMarker| ==> !OccursAt(s, k, EndMarker))
    && r.text == gen(s[r.start + |StartMarker|..r.end - |EndMarker|])
  }

  /** No opening marker in s[from..to). */
  predicate NoStartBetween(s: string, from: nat, to: nat) {
    forall m :: from <= m < to ==> !OccursAt(s, m, StartMarker)
  }

  /**
   * No complete block from position `from` on: either no opening marker,
   * or no closing marker anywhere after the first opening marker.
   */
  predicate NoBlockFrom(s: string, from: nat) {
    forall a, b ::
      (from <= a && a + |StartMarker| <= b <= |s| && OccursAt(s, a, StartMarker) && NoStartBetween(s, from, a))
      ==> !OccursAt(s, b, EndMarker)
  }

  /** The end of the last recorded block, or `from` when there is none. */
  function LastEnd(reps: seq<Replacement>, from: nat): nat {
    if reps == [] then from else reps[|reps| - 1].end
  }

  /** The start of the gap before block k: the end of block k - 1, or `from`. */
  function GapStart(reps: seq<Replacement>, k: nat, from: nat): nat
    requires k < |reps|
  {
    if k == 0 then from else reps[k - 1].end
  }

  /** A block found by one round is complete, and no opening marker precedes it. */
  lemma NextBlockSome(s: string, i: nat, gen: string -> string)
    requires i <= |s| && NextBlock(s, i, gen).Some?
    ensures IsBlock(s, NextBlock(s, i, gen).value, gen)
    ensures NoStartBetween(s, i, NextBlock(s, i, gen).value.start)
  {
    var a := FindFrom(s, i, StartMarker).value;
    FindFromFirst(s, i, StartMarker);
    FindFromFirst(s, a + |StartMarker|, EndMarker);
  }

  /** A round finds nothing only when no complete block is left. */
  lemma NextBlockNone(s: string, i: nat, gen: string -> string)
    requires i <= |s| && NextBlock(s, i, gen).None?
    ensures NoBlockFrom(s, i)
  {
    match FindFrom(s, i, StartMarker)
    case None =>
      FindFromNone(s, i, StartMarker);
    case Some(a) =>
      FindFromFirst(s, i, StartMarker);
      FindFromNone(s, a + |StartMarker|, EndMarker);
      forall a', b | i <= a' && a' + |StartMarker| <= b <= |s| && OccursAt(s, a', StartMarker) &&
                     NoStartBetween(s, i, a')
        ensures !OccursAt(s, b, EndMarker)
      {
        assert a' == a;
      }
  }

  /** One round of the scan as the loop of transform_markdown performs it. */
  lemma NextBlockFound(s: string, i: nat, gen: string -> string, a: nat, b: nat)
    requires i <= |s|
    requires FindFrom(s, i, StartMarker) == Some(a)
    requires a + |StartMarker| <= |s| && FindFrom(s, a + |StartMarker|, EndMarker) == Some(b)
    ensures NextBlock(s, i, gen) == Some(Replacement(a, b + |EndMarker|, gen(s[a + |StartMarker|..b])))
  {
  }

  /** A non-empty scan starts with the next block and goes on after it. */
  lemma ScanStep(s: string, i: nat, gen: string -> string)
    requires i <= |s| && Scan(s, i, gen) != []
    ensures NextBlock(s, i, gen) == Some(Scan(s, i, gen)[0])
    ensures Scan(s, i, gen)[1..] == Scan(s, Scan(s, i, gen)[0].end, gen)
  {
    var r := NextBlock(s, i, gen).value;
    assert Scan(s, i, gen) == [r] + Scan(s, r.end, gen);
  }

  /** The scan records the block a round finds and goes on after it. */
  lemma ScanNext(s: string, i: nat, gen: string -> string)
    requires i <= |s| && NextBlock(s, i, gen).Some?
    ensures Scan(s, i, gen) == [NextBlock(s, i, gen).value] + Scan(s, NextBlock(s, i, gen).value.end, gen)
  {
  }

  /** A range before an ordered list of ranges extends it. */
  lemma OrderedCons(s: string, head: Replacement, rest: seq<Replacement>, from: nat)
    requires from <= head.start <= head.end
    requires Ordered(s, rest, head.end)
    ensures Ordered(s, [head] + rest, from)
  {
    assert ([head] + rest)[1..] == rest;
  }

  /** The recorded ranges lie inside s, after i, in ascending order. */
  lemma {:induction false} ScanOrdered(s: string, i: nat, gen: string -> string)
    requires i <= |s|
    ensures Ordered(s, Scan(s, i, gen), i)
    decreases |s| - i
  {
    var reps := Scan(s, i, gen);
    if reps != [] {
      ScanStep(s, i, gen);
      ScanOrdered(s, reps[0].end, gen);
      OrderedCons(s, reps[0], reps[1..], i);
      assert reps == [reps[0]] + reps[1..];
    }
  }

  /**
   * transform_markdown as a function of the text: the scan's blocks
   * replaced by their generated text, everything between them kept.
   */
  function Transform(s: string, gen: string -> string): string {
    ScanOrdered(s, 0, gen);
    Assemble(s, Scan(s, 0, gen), 0)
  }

  /** Every recorded replacement is a complete block of s. */
  lemma {:induction false} ScanBlocks(s: string, i: nat, gen: string -> string)
    requires i <= |s|
    ensures forall k :: 0 <= k < |Scan(s, i, gen)| ==> IsBlock(s, Scan(s, i, gen)[k], gen)
    decreases |s| - i
  {
    var reps := Scan(s, i, gen);
    if reps != [] {
      ScanStep(s, i, gen);
      NextBlockSome(s, i, gen);
      ScanBlocks(s, reps[0].end, gen);
      assert forall k :: 1 <= k < |reps| ==> reps[k] == reps[1..][k - 1];
    }
  }

  /**
   * Each recorded block opens at the first opening marker after the
   * previous block (or after i).
   */
  lemma {:induction false} ScanGaps(s: string, i: nat, gen: string -> string)
    requires i <= |s|
    ensures forall k :: 0 <= k < |Scan(s, i, gen)| ==>
              NoStartBetween(s, GapStart(Scan(s, i, gen), k, i), Scan(s, i, gen)[k].start)
    decreases |s| - i
  {
    var reps := Scan(s, i, gen);
    if reps != [] {
      ScanStep(s, i, gen);
      NextBlockSome(s, i, gen);
      var next := reps[0].end;
      ScanGaps(s, next, gen);
      var rest := reps[1..];
      forall k | 1 <= k < |reps|
        ensures NoStartBetween(s, GapStart(reps, k, i), reps[k].start)
      {
        assert reps[k] == rest[k - 1];
        assert GapStart(reps, k, i) == GapStart(rest, k - 1, next);
      }
    }
  }

  /**
   * The scan stops only where nothing complete is left: after the last
   * block there is no opening marker, or one that is never closed.
   */
  lemma {:induction false} ScanStops(s: string, i: nat, gen: string -> string)
    requires i <= |s|
    ensures LastEnd(Scan(s, i, gen), i) <= |s| && NoBlockFrom(s, LastEnd(Scan(s, i, gen), i))
    decreases |s| - i
  {
    var reps := Scan(s, i, gen);
    if reps != [] {
      ScanStep(s, i, gen);
      var next := reps[0].end;
      ScanStops(s, next, gen);
      assert LastEnd(reps, i) == LastEnd(reps[1..], next);
    } else {
      NextBlockNone(s, i, gen);
    }
  }

  // ---------------------------------------------------------------------
  // transform_markdown
  // ---------------------------------------------------------------------

  /**
   * The replacements after the first `pending` ones are applied: the text
   * is the original up to the end of the last pending range, then the
   * assembled rest.
   */
  ghost predicate Rebuilt(s: string, reps: seq<Replacement>, pending: nat, result: string)
    requires pending <= |reps|
  {
    var cut := if 0 < pending then reps[pending - 1].end else 0;
    Ordered(s, reps[pending..], cut) && result == s[..cut] + Assemble(s, reps[pending..], cut)
  }

  /** Before any replacement is applied the text is the original. */
  lemma NoneApplied(s: string, reps: seq<Replacement>)
    requires Ordered(s, reps, 0)
    ensures Rebuilt(s, reps, |reps|, s)
  {
    var m := |reps|;
    if 0 < m {
      OrderedAt(s, reps, 0, m);
      var cut := reps[m - 1].end;
      assert s[..cut] + s[cut..] == s;
    }
  }

  /** Once every replacement is applied the text is the assembled one. */
  lemma AllApplied(s: string, reps: seq<Replacement>, result: string)
    requires Rebuilt(s, reps, 0, result)
    ensures Ordered(s, reps, 0) && result == Assemble(s, reps, 0)
  {
    assert reps[0..] == reps;
  }

  /**
   * Replacing one range in front of the part already rebuilt: the text up
   * to the range is still the original, so the splice extends the rebuilt
   * part by that range.
   */
  lemma Splice(s: string, r: Replacement, tail: seq<Replacement>, cut: nat, result: string)
    requires cut <= r.start <= r.end
    requires Ordered(s, tail, r.end)
    requires result == s[..r.end] + Assemble(s, tail, r.end)
    ensures Ordered(s, [r] + tail, cut)
    ensures r.end <= |result|
    ensures result[..r.start] + r.text + result[r.end..] == s[..cut] + Assemble(s, [r] + tail, cut)
  {
    AssembleCons(s, r, tail, cut);
    SpliceText(s, Assemble(s, tail, r.end), r.text, cut, r.start, r.end);
  }

  /** Assembling behind one more range: its gap, its text, then the rest. */
  lemma AssembleCons(s: string, r: Replacement, tail: seq<Replacement>, cut: nat)
    requires cut <= r.start <= r.end
    requires Ordered(s, tail, r.end)
    ensures Ordered(s, [r] + tail, cut)
    ensures Assemble(s, [r] + tail, cut) == s[cut..r.start] + r.text + Assemble(s, tail, r.end)
  {
    OrderedCons(s, r, tail, cut);
    assert ([r] + tail)[0] == r && ([r] + tail)[1..] == tail;
  }

  /** Splicing text t over [a, b) of a text that is s up to b followed by x. */
  lemma SpliceText(s: string, x: string, t: string, cut: nat, a: nat, b: nat)
    requires cut <= a <= b <= |s|
    ensures (s[..b] + x)[..a] + t + (s[..b] + x)[b..] == s[..cut] + (s[cut..a] + t + x)
  {
    assert (s[..b] + x)[..a] == s[..a];
    assert (s[..b] + x)[b..] == x;
    assert s[..a] == s[..cut] + s[cut..a];
  }

  /** Applying the last pending replacement. */
  lemma ApplyStep(s: string, reps: seq<Replacement>, pending: nat, result: string)
    requires Ordered(s, reps, 0) && 0 < pending <= |reps|
    requires Rebuilt(s, reps, pending, result)
    ensures var r := reps[pending - 1];
            r.start <= r.end <= |result| &&
            Rebuilt(s, reps, pending - 1, result[..r.start] + r.text + result[r.end..])
  {
    var r := reps[pending - 1];
    var cut := if 1 < pending then reps[pending - 2].end else 0;
    OrderedAt(s, reps, 0, pending);
    assert reps[pending - 1..] == [r] + reps[pending..];
    Splice(s, r, reps[pending..], cut, result);
  }

  /** The loop of transform_markdown stops exactly where the scan does. */
  lemma ScanEnds(s: string, i: nat, gen: string -> string)
    requires i <= |s|
    requires FindFrom(s, i, StartMarker).None? ||
             FindFrom(s, FindFrom(s, i, StartMarker).value + |StartMarker|, EndMarker).None?
    ensures Scan(s, i, gen) == []
  {
  }

  /** The blocks recorded so far, followed by those the scan finds from i, are all of them. */
  ghost predicate Collected(s: string, gen: string -> string, i: nat, done: seq<Replacement>, all: seq<Replacement>) {
    i <= |s| && done + Scan(s, i, gen) == all
  }

  /** One round of the loop of transform_markdown records what the scan records. */
  lemma CollectStep(s: string, gen: string -> string, i: nat, a: nat, b: nat, found: Replacement,
                    done: seq<Replacement>, all: seq<Replacement>)
    requires i <= |s|
    requires FindFrom(s, i, StartMarker) == Some(a)
    requires a + |StartMarker| <= |s| && FindFrom(s, a + |StartMarker|, EndMarker) == Some(b)
    requires found == Replacement(a, b + |EndMarker|, gen(s[a + |StartMarker|..b]))
    requires Collected(s, gen, i, done, all)
    ensures found.end <= |s|
    ensures Collected(s, gen, found.end, done + [found], all)
  {
    NextBlockFound(s, i, gen, a, b);
    ScanNext(s, i, gen);
    Regroup(done, found, Scan(s, found.end, gen), all);
  }

  /** Moving one element from the front of the rest to the end of what is done. */
  lemma Regroup(done: seq<Replacement>, found: Replacement, rest: seq<Replacement>, all: seq<Replacement>)
    requires done + ([found] + rest) == all
    ensures (done + [found]) + rest == all
  {
    assert done + ([found] + rest) == (done + [found]) + rest;
  }

  /**
   * The first half of transform_markdown: walk the text left to right and
   * record each complete block with its generated text, stopping at the
   * first opening marker that is never closed.
   */
  method CollectReplacements(content: string, gen: string -> string) returns (replacements: seq<Replacement>)
    ensures replacements == Scan(content, 0, gen)
  {
    var currentIndex := 0;
    replacements := [];
    ghost var all := Scan(content, 0, gen);
    while true
      invariant Collected(content, gen, currentIndex, replacements, all)
      decreases |content| - currentIndex
    {
      var startFound := FindFrom(content, currentIndex, StartMarker);
      if startFound.None? {
        ScanEnds(content, currentIndex, gen);
        break;
      }
      var startIndex := startFound.value;
      var endFound := FindFrom(content, startIndex + |StartMarker|, EndMarker);
      if endFound.None? {
        ScanEnds(content, currentIndex, gen);
        break;
      }
      var endIndex := endFound.value;
      var svg := gen(content[startIndex + |StartMarker|..endIndex]);
      var found := Replacement(startIndex, endIndex + |EndMarker|, svg);
      CollectStep(content, gen, currentIndex, startIndex, endIndex, found, replacements, all);
      replacements := replacements + [found];
      currentIndex := found.end;
    }
  }

  /**
   * The second half of transform_markdown: reverse the recorded list and
   * splice each replacement into the text, last range first, so that the
   * recorded positions of the earlier ranges still point into unchanged
   * text.
   */
  method ApplyReplacements(content: string, replacements: seq<Replacement>) returns (result: string)
    requires Ordered(content, replacements, 0)
    ensures result == Assemble(content, replacements, 0)
  {
    var reversed := Reverse(replacements);
    result := content;
    NoneApplied(content, replacements);
    for k := 0 to |reversed|
      invariant Rebuilt(content, replacements, |replacements| - k, result)
    {
      var r := reversed[k];
      assert r == replacements[|replacements| - k - 1];
      ApplyStep(content, replacements, |replacements| - k, result);
      result := result[..r.start] + r.text + result[r.end..];
    }
    AllApplied(content, replacements, result);
  }

  /**
   * transform_markdown: record the blocks left to right, then replace them
   * from the last to the first.
   */
  method TransformMarkdown(content: string, gen: string -> string) returns (result: string)
    ensures result == Transform(content, gen)
  {
    var replacements := CollectReplacements(content, gen);
    ScanOrdered(content, 0, gen);
    result := ApplyReplacements(content, replacements);
  }

  // ---------------------------------------------------------------------
  // Properties of the transformation
  // ---------------------------------------------------------------------

  /** Text without a complete block comes back unchanged. */
  lemma NoBlockUnchanged(s: string, gen: string -> string)
    requires NoBlockFrom(s, 0)
    ensures Transform(s, gen) == s
  {
    if NextBlock(s, 0, gen).Some? {
      NextBlockSome(s, 0, gen);
      assert false;
    }
  }

  /** The replacement text of r is the text of the range it replaces. */
  predicate Verbatim(s: string, r: Replacement) {
    r.start <= r.end <= |s| && r.text == s[r.start..r.end]
  }

  /** Ranges whose texts are their own contents assemble to the original text. */
  lemma {:induction false} AssembleVerbatim(s: string, reps: seq<Replacement>, from: nat)
    requires Ordered(s, reps, from)
    requires forall k :: 0 <= k < |reps| ==> Verbatim(s, reps[k])
    ensures Assemble(s, reps, from) == s[from..]
    decreases |reps|
  {
    if reps != [] {
      var r := reps[0];
      assert forall k :: 0 <= k < |reps[1..]| ==> reps[1..][k] == reps[k + 1];
      AssembleVerbatim(s, reps[1..], r.end);
      assert s[from..r.start] + s[r.start..r.end] + s[r.end..] == s[from..];
    }
  }

  /** The generator that rebuilds each block from its body. */
  function Fence(body: string): (r: string)
    ensures |r| == |StartMarker| + |body| + |EndMarker|
    ensures r[..|StartMarker|] == StartMarker && r[|StartMarker|..|r| - |EndMarker|] == body
    ensures r[|r| - |EndMarker|..] == EndMarker
  {
    StartMarker + body + EndMarker
  }

  /** A block generated by Fence is the block's own text. */
  lemma FencedBlock(s: string, r: Replacement)
    requires IsBlock(s, r, Fence)
    ensures Verbatim(s, r)
  {
    var a := r.start + |StartMarker|;
    var b := r.end - |EndMarker|;
    assert s[r.start..r.end] == s[r.start..a] + s[a..b] + s[b..r.end];
  }

  /**
   * Round trip: with a generator that wraps each body in the markers again,
   * the transformation gives back the text it was given.
   */
  lemma RoundTrip(s: string)
    ensures Transform(s, Fence) == s
  {
    var reps := Scan(s, 0, Fence);
    ScanOrdered(s, 0, Fence);
    ScanBlocks(s, 0, Fence);
    forall k | 0 <= k < |reps|
      ensures Verbatim(s, reps[k])
    {
      FencedBlock(s, reps[k]);
    }
    AssembleVerbatim(s, reps, 0);
  }

  /** Everything after the last recorded block is carried over unchanged. */
  lemma {:induction false} AssembleKeepsTail(s: string, reps: seq<Replacement>, from: nat)
    requires Ordered(s, reps, from)
    ensures LastEnd(reps, from) <= |s|
    ensures var a := Assemble(s, reps, from);
            var tail := s[LastEnd(reps, from)..];
            |tail| <= |a| && a[|a| - |tail|..] == tail
    decreases |reps|
  {
    if reps != [] {
      var r := reps[0];
      AssembleKeepsTail(s, reps[1..], r.end);
      assert LastEnd(reps[1..], r.end) == LastEnd(reps, from);
    }
  }

  /**
   * The transformed text ends with the original text after the last
   * complete block, however that tail looks (an unmatched opening marker
   * included).
   */
  lemma TransformKeepsTail(s: string, gen: string -> string)
    ensures var last := LastEnd(Scan(s, 0, gen), 0);
            last <= |s| && NoBlockFrom(s, last) &&
            var t := Transform(s, gen);
            |s| - last <= |t| && t[|t| - (|s| - last)..] == s[last..]
  {
    ScanOrdered(s, 0, gen);
    ScanStops(s, 0, gen);
    AssembleKeepsTail(s, Scan(s, 0, gen), 0);
  }

  /** Total length of the replaced ranges and of their replacement texts. */
  function Removed(reps: seq<Replacement>): int {
    if reps == [] then 0 else reps[0].end - reps[0].start + Removed(reps[1..])
  }

  function Added(reps: seq<Replacement>): nat {
    if reps == [] then 0 else |reps[0].text| + Added(reps[1..])
  }

  /** Each replacement takes out its range and puts in its text. */
  lemma {:induction false} AssembleLength(s: string, reps: seq<Replacement>, from: nat)
    requires Ordered(s, reps, from)
    ensures |Assemble(s, reps, from)| == |s| - from - Removed(reps) + Added(reps)
    decreases |reps|
  {
    if reps != [] {
      AssembleLength(s, reps[1..], reps[0].end);
    }
  }
}
