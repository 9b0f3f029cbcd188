/** The Markdown-to-ANSI terminal formatter (format_test.rs): fence deletion,
    a generic paired-marker scanner run for bold, inline code and
    strikethrough, and a final single-asterisk italic scanner. */
module Formatter {
  import opened Text

  datatype Option<T> = None | Some(value: T)

  const BoldOn: string := "\U{1B}[1m"
  const CodeOn: string := "\U{1B}[93m"
  const StrikeOn: string := "\U{1B}[9m"
  const ItalicOn: string := "\U{1B}[3m"
  const Reset: string := "\U{1B}[0m"
  const Fence: string := "```"

  // ---------------------------------------------------------------------------
  // Fence deletion: `str::replace("```", "")`
  // ---------------------------------------------------------------------------

  /** Deletes every non-overlapping occurrence of the fence, leftmost first. */
  function RemoveFences(s: string): (r: string)
    ensures |r| <= |s|
    decreases |s|
  {
    if s == [] then []
    else if OccursAt(s, Fence, 0) then
      RemoveFences(s[3..])
    else
      [s[0]] + RemoveFences(s[1..])
  }

  /** Fence deletion inserts nothing, and in particular no escape sequence:
      the result is a sub-multiset of the input. */
  lemma {:induction false} RemoveFencesInsertsNothing(s: string)
    ensures multiset(RemoveFences(s)) <= multiset(s)
    decreases |s|
  {
    if s == [] {
    } else if OccursAt(s, Fence, 0) {
      RemoveFencesInsertsNothing(s[3..]);
      assert s == s[..3] + s[3..];
    } else {
      RemoveFencesInsertsNothing(s[1..]);
      assert s == [s[0]] + s[1..];
    }
  }

  /** The characters of `s` other than backticks, in order. */
  function NonBackticks(s: string): string
  {
    if s == [] then []
    else (if s[0] == '`' then [] else [s[0]]) + NonBackticks(s[1..])
  }

  /** Fence deletion removes backticks only: every other character survives, in order. */
  lemma {:induction false} RemoveFencesKeepsText(s: string)
    ensures NonBackticks(RemoveFences(s)) == NonBackticks(s)
    decreases |s|
  {
    if s == [] {
    } else if OccursAt(s, Fence, 0) {
      assert s[1..][1..] == s[2..] && s[2..][1..] == s[3..];
      calc {
        NonBackticks(s);
        NonBackticks(s[1..]);
        NonBackticks(s[2..]);
        NonBackticks(s[3..]);
        { RemoveFencesKeepsText(s[3..]); }
        NonBackticks(RemoveFences(s[3..]));
      }
    } else {
      RemoveFencesKeepsText(s[1..]);
      assert ([s[0]] + RemoveFences(s[1..]))[1..] == RemoveFences(s[1..]);
    }
  }

  /** A non-empty input that does not start with a backtick keeps its first character. */
  lemma {:induction false} RemoveFencesHead(t: string)
    requires |t| > 0 && t[0] != '`'
    ensures |RemoveFences(t)| > 0 && RemoveFences(t)[0] == t[0]
  {
  }

  /** After deletion no fence is left: a run of n backticks shrinks to n mod 3,
      so deleting a fence never joins backticks into a new one. */
  lemma {:induction false} RemoveFencesLeavesNoFence(s: string)
    ensures forall i: nat :: !OccursAt(RemoveFences(s), Fence, i)
    decreases |s|
  {
    if s == [] {
    } else if OccursAt(s, Fence, 0) {
      RemoveFencesLeavesNoFence(s[3..]);
    } else {
      var t := RemoveFences(s[1..]);
      var r := RemoveFences(s);
      assert r == [s[0]] + t;
      RemoveFencesLeavesNoFence(s[1..]);
      forall i: nat ensures !OccursAt(r, Fence, i) {
        if i > 0 {
          assert r[1..] == t;
          OccursAtTail(r, Fence, i - 1);
        } else if s[0] == '`' && |s| >= 2 {
          if s[1] != '`' {
            RemoveFencesHead(s[1..]);
          } else if |s| >= 3 {
            var u := s[1..];
            assert u[1] != '`';
            assert !OccursAt(u, Fence, 0);
            assert t == [u[0]] + RemoveFences(u[1..]);
            RemoveFencesHead(u[1..]);
          }
        }
      }
    }
  }

  /** A fence cannot start at a character other than a backtick. */
  lemma {:induction false} NoFenceAtNonBacktick(s: string)
    requires |s| > 0 && s[0] != '`'
    ensures !OccursAt(s, Fence, 0)
  {
    if |s| >= 3 {
      assert s[0..3][0] == s[0];
    }
  }

  /** No fence starts inside a backtick-free prefix, whatever follows it. */
  lemma {:induction false} LacksNoFence(a: string, s: string)
    requires Lacks(a, '`')
    ensures forall p: nat :: p < |a| ==> !OccursAt(a + s, Fence, p)
  {
    forall p: nat | p < |a| ensures !OccursAt(a + s, Fence, p) {
      OccursAtChars(a + s, Fence, p);
      assert (a + s)[p + 0] == a[p];
    }
  }

  /** A prefix in which no fence starts is copied through fence deletion
      unchanged, and deletion goes on with the rest. */
  lemma {:induction false} RemoveFencesCopy(a: string, s: string)
    requires forall p: nat :: p < |a| ==> !OccursAt(a + s, Fence, p)
    ensures RemoveFences(a + s) == a + RemoveFences(s)
    decreases |a|
  {
    if a != [] {
      assert !OccursAt(a + s, Fence, 0);
      assert (a + s)[1..] == a[1..] + s;
      forall p: nat | p < |a[1..]| ensures !OccursAt(a[1..] + s, Fence, p) {
        OccursAtTail(a + s, Fence, p);
      }
      calc {
        RemoveFences(a + s);
        [a[0]] + RemoveFences(a[1..] + s);
        { RemoveFencesCopy(a[1..], s); }
        [a[0]] + (a[1..] + RemoveFences(s));
        { assert a == [a[0]] + a[1..]; }
        a + RemoveFences(s);
      }
    } else {
      assert a + s == s;
    }
  }

  /** The first fence is the one deleted: a prefix in which no fence starts is
      kept, the fence after it disappears, and deletion goes on after it. */
  lemma {:induction false} RemoveFencesLeftmost(a: string, b: string)
    requires forall p: nat :: p < |a| ==> !OccursAt(a + Fence + b, Fence, p)
    ensures RemoveFences(a + Fence + b) == a + RemoveFences(b)
  {
    assert a + Fence + b == a + (Fence + b);
    RemoveFencesCopy(a, Fence + b);
    assert (Fence + b)[0..3] == Fence;
    assert (Fence + b)[3..] == b;
  }

  /** An inline code mark before a fence is kept: "`a```b" becomes "`ab". */
  lemma {:induction false} InlineCodeBeforeFence()
    ensures RemoveFences("`a```b") == "`ab"
  {
    var t := "`a" + Fence + "b";
    assert "`a```b" == t;
    forall p: nat | p < 2 ensures !OccursAt(t, Fence, p) {
      OccursAtChars(t, Fence, p);
      assert t[1] == 'a';
      if p == 0 { assert t[p + 1] != Fence[1]; } else { assert t[p + 0] != Fence[0]; }
    }
    RemoveFencesLeftmost("`a", "b");
    NoFenceAtNonBacktick("b");
    assert RemoveFences("b") == "b";
  }

  /** Characters are only ever removed as whole fences, three at a time. */
  lemma {:induction false} RemoveFencesWholeFences(s: string)
    ensures (|s| - |RemoveFences(s)|) % 3 == 0
    decreases |s|
  {
    if s != [] {
      if OccursAt(s, Fence, 0) {
        RemoveFencesWholeFences(s[3..]);
      } else {
        RemoveFencesWholeFences(s[1..]);
      }
    }
  }

  /** Text without backticks passes through fence deletion unchanged. */
  lemma {:induction false} RemoveFencesIdentity(s: string)
    requires Lacks(s, '`')
    ensures RemoveFences(s) == s
  {
    LacksNoFence(s, []);
    RemoveFencesCopy(s, []);
    assert s + [] == s;
  }

  /** Text in which the fence never occurs passes through fence deletion unchanged. */
  lemma {:induction false} RemoveFencesNoFence(s: string)
    requires forall p: nat :: !OccursAt(s, Fence, p)
    ensures RemoveFences(s) == s
    decreases |s|
  {
    if s != [] {
      forall p: nat ensures !OccursAt(s[1..], Fence, p) {
        OccursAtTail(s, Fence, p);
      }
      RemoveFencesNoFence(s[1..]);
      assert s == [s[0]] + s[1..];
    }
  }

  /** The fence step alone: "```block```" becomes "block". */
  lemma {:induction false} FenceExample()
    ensures RemoveFences("```block```") == "block"
  {
    var t := "block" + Fence;
    assert "```block```" == Fence + t;
    assert (Fence + t)[0..3] == Fence;
    assert (Fence + t)[3..] == t;
    assert RemoveFences(Fence + t) == RemoveFences(t);
    LacksNoFence("block", Fence);
    RemoveFencesCopy("block", Fence);
    assert Fence[0..3] == Fence && Fence[3..] == [];
    assert RemoveFences(Fence) == [];
  }

  // ---------------------------------------------------------------------------
  // Paired-marker scanner: `replace_markdown_pattern`
  // ---------------------------------------------------------------------------

  /** The inner look-ahead loop: the first index from `from` on at which `m` occurs. */
  function FindMarker(chars: string, m: string, from: nat): (r: Option<nat>)
    ensures r.Some? ==> from <= r.value && r.value + |m| <= |chars|
    decreases |chars| - from
  {
    if from + |m| > |chars| then None
    else if OccursAt(chars, m, from) then Some(from)
    else FindMarker(chars, m, from + 1)
  }

  /** The look-ahead finds the nearest later occurrence, and finds nothing
      only when the marker does not occur again. */
  lemma {:induction false} FindMarkerNearest(chars: string, m: string, from: nat)
    ensures FindMarker(chars, m, from).Some? ==>
              var j := FindMarker(chars, m, from).value;
              from <= j && OccursAt(chars, m, j) &&
              forall p: nat :: from <= p < j ==> !OccursAt(chars, m, p)
    ensures FindMarker(chars, m, from).None? ==> forall p: nat :: from <= p ==> !OccursAt(chars, m, p)
    decreases |chars| - from
  {
    if from + |m| <= |chars| && !OccursAt(chars, m, from) {
      FindMarkerNearest(chars, m, from + 1);
    }
  }

  /** An occurrence at `j` with none in between is the one the look-ahead finds. */
  lemma {:induction false} FindMarkerFirst(chars: string, m: string, from: nat, j: nat)
    requires from <= j && OccursAt(chars, m, j)
    requires forall p: nat :: from <= p < j ==> !OccursAt(chars, m, p)
    ensures FindMarker(chars, m, from) == Some(j)
    decreases j - from
  {
    if from < j {
      FindMarkerFirst(chars, m, from + 1, j);
    }
  }

  /** With no later occurrence the look-ahead finds nothing. */
  lemma {:induction false} FindMarkerAbsent(chars: string, m: string, from: nat)
    requires forall p: nat :: from <= p ==> !OccursAt(chars, m, p)
    ensures FindMarker(chars, m, from) == None
    decreases |chars| - from
  {
    if from + |m| <= |chars| {
      FindMarkerAbsent(chars, m, from + 1);
    }
  }

  /** The output the scan produces from index `i` on: at an occurrence of the
      marker paired with the nearest later one, the wrapped content; at an
      unpaired occurrence or any other character, that one character. */
  function PatternFrom(chars: string, m: string, on: string, off: string, i: nat): string
    requires |m| > 0
    decreases |chars| - i
  {
    if i >= |chars| then []
    else if OccursAt(chars, m, i) then
      match FindMarker(chars, m, i + |m|)
      case Some(j) => on + chars[i + |m|..j] + off + PatternFrom(chars, m, on, off, j + |m|)
      case None => [chars[i]] + PatternFrom(chars, m, on, off, i + 1)
    else
      [chars[i]] + PatternFrom(chars, m, on, off, i + 1)
  }

  /** `replace_markdown_pattern(text, m, on, off)` as a value. */
  function MarkdownPattern(text: string, m: string, on: string, off: string): string
    requires |m| > 0
  {
    PatternFrom(text, m, on, off, 0)
  }

  /** The scan. An empty marker would never advance the index, so the marker
      must be non-empty. */
  method ReplaceMarkdownPattern(text: string, marker: string, startAnsi: string, endAnsi: string)
    returns (result: string)
    requires |marker| > 0
    ensures result == MarkdownPattern(text, marker, startAnsi, endAnsi)
  {
    result := [];
    var chars := text;
    var i := 0;
    while i < |chars|
      invariant i <= |chars|
      invariant result + PatternFrom(chars, marker, startAnsi, endAnsi, i)
             == MarkdownPattern(text, marker, startAnsi, endAnsi)
    {
      if OccursAt(chars, marker, i) {
        // an opener at i: the inner loop looks ahead for the nearest closer (FindMarker)
        var j := ScanForMarker(chars, marker, i + |marker|);
        if j + |marker| <= |chars| {
          // a closer at j: emit the span and resume after the closer
          var content := chars[i + |marker|..j];
          var span := startAnsi + content + endAnsi;
          PatternStepPair(text, chars, marker, startAnsi, endAnsi, result, i, j);
          result := result + span;
          i := j + |marker|;
        } else {
          // no closer ahead: emit one character and advance by one
          PatternStepLiteral(text, chars, marker, startAnsi, endAnsi, result, i);
          result := result + [chars[i]];
          i := i + 1;
        }
      } else {
        PatternStepLiteral(text, chars, marker, startAnsi, endAnsi, result, i);
        result := result + [chars[i]];
        i := i + 1;
      }
    }
  }

  /** The scan's loop invariant is kept when a pair is emitted. */
  lemma {:induction false} PatternStepPair(text: string, chars: string, m: string, on: string, off: string, result: string, i: nat, j: nat)
    requires |m| > 0 && i < |chars|
    requires OccursAt(chars, m, i) && FindMarker(chars, m, i + |m|) == Some(j)
    requires result + PatternFrom(chars, m, on, off, i) == MarkdownPattern(text, m, on, off)
    ensures (result + (on + chars[i + |m|..j] + off)) + PatternFrom(chars, m, on, off, j + |m|)
         == MarkdownPattern(text, m, on, off)
  {
    PatternAtPair(chars, m, on, off, i, j);
    AppendAssoc(result, on + chars[i + |m|..j] + off, PatternFrom(chars, m, on, off, j + |m|));
  }

  /** The scan's loop invariant is kept when one character is copied. */
  lemma {:induction false} PatternStepLiteral(text: string, chars: string, m: string, on: string, off: string, result: string, i: nat)
    requires |m| > 0 && i < |chars|
    requires !OccursAt(chars, m, i) || FindMarker(chars, m, i + |m|).None?
    requires result + PatternFrom(chars, m, on, off, i) == MarkdownPattern(text, m, on, off)
    ensures (result + [chars[i]]) + PatternFrom(chars, m, on, off, i + 1) == MarkdownPattern(text, m, on, off)
  {
    PatternAtLiteral(chars, m, on, off, i);
    AppendAssoc(result, [chars[i]], PatternFrom(chars, m, on, off, i + 1));
  }

  /** The inner `while j` loop: advances `j` from `from` to the first index at
      which the marker occurs, or past the last index at which it could start. */
  method ScanForMarker(chars: string, marker: string, from: nat) returns (j: nat)
    ensures FindMarker(chars, marker, from).Some? <==> j + |marker| <= |chars|
    ensures FindMarker(chars, marker, from).Some? ==> j == FindMarker(chars, marker, from).value
  {
    j := from;
    while j + |marker| <= |chars|
      invariant from <= j
      invariant forall p: nat :: from <= p < j ==> !OccursAt(chars, marker, p)
      decreases |chars| - j
    {
      if OccursAt(chars, marker, j) {
        FindMarkerFirst(chars, marker, from, j);
        return;
      }
      j := j + 1;
    }
    FindMarkerAbsent(chars, marker, from);
  }

  lemma {:induction false} AppendAssoc(a: string, b: string, c: string)
    ensures a + b + c == a + (b + c)
  {
  }

  /** Shifting the buffer: the scan only looks ahead, so scanning `chars` from
      `i` is scanning the suffix that starts at `k <= i`. */
  lemma {:induction false} FindMarkerShift(d: string, chars: string, m: string, k: nat, from: nat, from2: nat)
    requires IsShift(d, chars, k) && from == from2 + k
    ensures FindMarker(d, m, from2).Some? <==> FindMarker(chars, m, from).Some?
    ensures FindMarker(d, m, from2).Some? ==> FindMarker(chars, m, from).value == FindMarker(d, m, from2).value + k
    decreases |chars| - from
  {
    OccursAtShift(d, chars, k, m, from, from2);
    if from + |m| <= |chars| && !OccursAt(chars, m, from) {
      FindMarkerShift(d, chars, m, k, from + 1, from2 + 1);
    }
  }

  lemma {:induction false} SliceShift(d: string, s: string, k: nat, a: nat, b: nat, a2: nat, b2: nat)
    requires IsShift(d, s, k) && a == a2 + k && b == b2 + k && a <= b <= |s|
    ensures d[a2..b2] == s[a..b]
  {
  }

  /** Two buffers whose scans agree after a pair agree from its opener on. */
  lemma {:induction false} PatternPairAgree(chars: string, d: string, m: string, on: string, off: string, k: nat, i: nat, i2: nat, j: nat, j2: nat)
    requires |m| > 0 && IsShift(d, chars, k) && i == i2 + k && j == j2 + k && i < |chars|
    requires OccursAt(chars, m, i) && FindMarker(chars, m, i + |m|) == Some(j)
    requires OccursAt(d, m, i2) && FindMarker(d, m, i2 + |m|) == Some(j2)
    requires PatternFrom(chars, m, on, off, j + |m|) == PatternFrom(d, m, on, off, j2 + |m|)
    ensures PatternFrom(chars, m, on, off, i) == PatternFrom(d, m, on, off, i2)
  {
    SliceShift(d, chars, k, i + |m|, j, i2 + |m|, j2);
    PatternAtPair(chars, m, on, off, i, j);
    PatternAtPair(d, m, on, off, i2, j2);
  }

  /** Two buffers whose scans agree after a literal character agree from it on. */
  lemma {:induction false} PatternLiteralAgree(chars: string, d: string, m: string, on: string, off: string, i: nat, i2: nat)
    requires |m| > 0 && i < |chars| && i2 < |d| && chars[i] == d[i2]
    requires !OccursAt(chars, m, i) || FindMarker(chars, m, i + |m|).None?
    requires !OccursAt(d, m, i2) || FindMarker(d, m, i2 + |m|).None?
    requires PatternFrom(chars, m, on, off, i + 1) == PatternFrom(d, m, on, off, i2 + 1)
    ensures PatternFrom(chars, m, on, off, i) == PatternFrom(d, m, on, off, i2)
  {
    PatternAtLiteral(chars, m, on, off, i);
    PatternAtLiteral(d, m, on, off, i2);
  }

  lemma {:induction false} PatternShift(d: string, chars: string, m: string, on: string, off: string, k: nat, i: nat, i2: nat)
    requires |m| > 0
    requires IsShift(d, chars, k) && i == i2 + k && i <= |chars|
    ensures PatternFrom(chars, m, on, off, i) == PatternFrom(d, m, on, off, i2)
    decreases |chars| - i, 2
  {
    if i < |chars| {
      if OccursAt(chars, m, i) && FindMarker(chars, m, i + |m|).Some? {
        PatternShiftPair(d, chars, m, on, off, k, i, i2);
      } else {
        PatternShiftLiteral(d, chars, m, on, off, k, i, i2);
      }
    }
  }

  lemma {:induction false} PatternShiftPair(d: string, chars: string, m: string, on: string, off: string, k: nat, i: nat, i2: nat)
    requires |m| > 0
    requires IsShift(d, chars, k) && i == i2 + k && i < |chars|
    requires OccursAt(chars, m, i) && FindMarker(chars, m, i + |m|).Some?
    ensures PatternFrom(chars, m, on, off, i) == PatternFrom(d, m, on, off, i2)
    decreases |chars| - i, 1
  {
    var j, j2 := PatternShiftAfterSpan(d, chars, m, on, off, k, i, i2);
    PatternPairAgree(chars, d, m, on, off, k, i, i2, j, j2);
  }

  /** A pair found in a buffer is found in its suffix, shifted by `k`, and the
      scans after the two closers agree. */
  lemma {:induction false} PatternShiftAfterSpan(d: string, chars: string, m: string, on: string, off: string, k: nat, i: nat, i2: nat)
    returns (j: nat, j2: nat)
    requires |m| > 0
    requires IsShift(d, chars, k) && i == i2 + k && i < |chars|
    requires OccursAt(chars, m, i) && FindMarker(chars, m, i + |m|).Some?
    ensures OccursAt(d, m, i2)
    ensures FindMarker(chars, m, i + |m|) == Some(j) && FindMarker(d, m, i2 + |m|) == Some(j2)
    ensures j == j2 + k
    ensures PatternFrom(chars, m, on, off, j + |m|) == PatternFrom(d, m, on, off, j2 + |m|)
    decreases |chars| - i, 0
  {
    j, j2 := PatternSpanShift(d, chars, m, k, i, i2);
    PatternShift(d, chars, m, on, off, k, j + |m|, j2 + |m|);
  }

  /** A pair found in a buffer is found in its suffix, shifted by `k`. */
  lemma {:induction false} PatternSpanShift(d: string, chars: string, m: string, k: nat, i: nat, i2: nat)
    returns (j: nat, j2: nat)
    requires IsShift(d, chars, k) && i == i2 + k && i < |chars|
    requires OccursAt(chars, m, i) && FindMarker(chars, m, i + |m|).Some?
    ensures OccursAt(d, m, i2)
    ensures FindMarker(chars, m, i + |m|) == Some(j) && FindMarker(d, m, i2 + |m|) == Some(j2)
    ensures j == j2 + k && j + |m| == (j2 + |m|) + k && i + |m| <= j && j + |m| <= |chars|
  {
    OccursAtShift(d, chars, k, m, i, i2);
    FindMarkerShift(d, chars, m, k, i + |m|, i2 + |m|);
    j := FindMarker(chars, m, i + |m|).value;
    j2 := FindMarker(d, m, i2 + |m|).value;
  }

  lemma {:induction false} PatternShiftLiteral(d: string, chars: string, m: string, on: string, off: string, k: nat, i: nat, i2: nat)
    requires |m| > 0
    requires IsShift(d, chars, k) && i == i2 + k && i < |chars|
    requires !OccursAt(chars, m, i) || FindMarker(chars, m, i + |m|).None?
    ensures PatternFrom(chars, m, on, off, i) == PatternFrom(d, m, on, off, i2)
    decreases |chars| - i, 0
  {
    OccursAtShift(d, chars, k, m, i, i2);
    FindMarkerShift(d, chars, m, k, i + |m|, i2 + |m|);
    PatternShift(d, chars, m, on, off, k, i + 1, i2 + 1);
    PatternLiteralAgree(chars, d, m, on, off, i, i2);
  }

  /** The scan from index `k` of a buffer is the scan of its suffix from `k` on. */
  lemma {:induction false} PatternDrop(chars: string, m: string, on: string, off: string, k: nat)
    requires |m| > 0 && k <= |chars|
    ensures PatternFrom(chars, m, on, off, k) == MarkdownPattern(chars[k..], m, on, off)
  {
    DropIsShift(chars, k);
    PatternShift(chars[k..], chars, m, on, off, k, k, 0);
  }

  /** Characters at which no marker starts are copied through one by one. */
  lemma {:induction false} PatternCopyFrom(chars: string, m: string, on: string, off: string, i: nat, n: nat)
    requires |m| > 0
    requires i <= n <= |chars|
    requires forall p: nat :: i <= p < n ==> !OccursAt(chars, m, p)
    ensures PatternFrom(chars, m, on, off, i) == chars[i..n] + PatternFrom(chars, m, on, off, n)
    decreases n - i
  {
    if i < n {
      PatternAtLiteral(chars, m, on, off, i);
      PatternCopyFrom(chars, m, on, off, i + 1, n);
      assert chars[i..n] == [chars[i]] + chars[i + 1..n];
      AppendAssoc([chars[i]], chars[i + 1..n], PatternFrom(chars, m, on, off, n));
    } else {
      assert chars[i..n] == [];
    }
  }

  /** Copy-through: a prefix in which no marker starts is emitted verbatim and
      the rest is scanned as if it stood alone. */
  lemma {:induction false} PatternCopy(a: string, rest: string, m: string, on: string, off: string)
    requires |m| > 0
    requires forall p: nat :: p < |a| ==> !OccursAt(a + rest, m, p)
    ensures MarkdownPattern(a + rest, m, on, off) == a + MarkdownPattern(rest, m, on, off)
  {
    var t := a + rest;
    PatternCopyFrom(t, m, on, off, 0, |a|);
    PatternDrop(t, m, on, off, |a|);
    assert t[..|a|] == a && t[|a|..] == rest;
  }

  /** One step of the scan at a marker paired with the nearest closer at `j`. */
  lemma {:induction false} PatternAtPair(chars: string, m: string, on: string, off: string, i: nat, j: nat)
    requires |m| > 0 && i < |chars|
    requires OccursAt(chars, m, i) && FindMarker(chars, m, i + |m|) == Some(j)
    ensures PatternFrom(chars, m, on, off, i) == on + chars[i + |m|..j] + off + PatternFrom(chars, m, on, off, j + |m|)
  {
    var tail := PatternFrom(chars, m, on, off, j + |m|);
    assert PatternFrom(chars, m, on, off, i) == on + chars[i + |m|..j] + off + tail;
  }

  /** One step of the scan at a character that is emitted literally. */
  lemma {:induction false} PatternAtLiteral(chars: string, m: string, on: string, off: string, i: nat)
    requires |m| > 0 && i < |chars|
    requires !OccursAt(chars, m, i) || FindMarker(chars, m, i + |m|).None?
    ensures PatternFrom(chars, m, on, off, i) == [chars[i]] + PatternFrom(chars, m, on, off, i + 1)
  {
    var tail := PatternFrom(chars, m, on, off, i + 1);
    assert PatternFrom(chars, m, on, off, i) == [chars[i]] + tail;
  }

  /** In `m + c + m + rest`, the closer nearest to the opener is the second `m`
      when no occurrence of the marker starts inside `c`. */
  lemma {:induction false} SpanCloser(c: string, rest: string, m: string)
    requires |m| > 0
    requires forall p: nat :: p < |c| ==> !OccursAt(c + m, m, p)
    ensures OccursAt(m + c + m + rest, m, 0)
    ensures FindMarker(m + c + m + rest, m, |m|) == Some(|m| + |c|)
  {
    var t := m + c + m + rest;
    var n := |m|;
    assert t[0..n] == m;
    OccursAtSlice(t, m, 0);
    assert t[n + |c|..n + |c| + n] == m;
    OccursAtSlice(t, m, n + |c|);
    assert t[n..] == (c + m) + rest;
    DropIsShift(t, n);
    forall p: nat | n <= p < n + |c| ensures !OccursAt(t, m, p) {
      OccursAtShift(t[n..], t, n, m, p, p - n);
      OccursAtPrefix(c + m, rest, m, p - n);
    }
    FindMarkerFirst(t, m, n, n + |c|);
  }

  /** A marker paired with the nearest later marker: the content between them
      is emitted verbatim between the start and end sequences (no rescan of
      the content within this pass), and scanning resumes after the closer. */
  lemma {:induction false} PatternSpan(c: string, rest: string, m: string, on: string, off: string)
    requires |m| > 0
    requires forall p: nat :: p < |c| ==> !OccursAt(c + m, m, p)
    ensures MarkdownPattern(m + c + m + rest, m, on, off) == on + c + off + MarkdownPattern(rest, m, on, off)
  {
    SpanSlices(c, rest, m);
    SpanCloser(c, rest, m);
    PatternSpanAt(m + c + m + rest, c, rest, m, on, off, |m| + |c|);
  }

  /** The span step on any buffer that opens with a marker whose closer is at `j`. */
  lemma {:induction false} PatternSpanAt(t: string, c: string, rest: string, m: string, on: string, off: string, j: nat)
    requires |m| > 0 && |m| <= j && j + |m| <= |t|
    requires OccursAt(t, m, 0) && FindMarker(t, m, 0 + |m|) == Some(j)
    requires t[0 + |m|..j] == c && t[j + |m|..] == rest
    ensures MarkdownPattern(t, m, on, off) == on + c + off + MarkdownPattern(rest, m, on, off)
  {
    var tail := PatternFrom(t, m, on, off, j + |m|);
    PatternAtPair(t, m, on, off, 0, j);
    PatternDrop(t, m, on, off, j + |m|);
    assert tail == MarkdownPattern(rest, m, on, off);
    assert MarkdownPattern(t, m, on, off) == on + c + off + tail;
  }

  lemma {:induction false} SpanSlices(c: string, rest: string, m: string)
    ensures (m + c + m + rest)[|m|..|m| + |c|] == c
    ensures (m + c + m + rest)[|m| + |c| + |m|..] == rest
  {
  }

  /** Text in which no two occurrences of the marker can pair up is returned
      unchanged, so an unmatched opener stays literal. */
  lemma {:induction false} PatternNoPairFrom(chars: string, m: string, on: string, off: string, i: nat)
    requires |m| > 0
    requires i <= |chars|
    requires forall p: nat, q: nat :: i <= p && p + |m| <= q && OccursAt(chars, m, p) ==> !OccursAt(chars, m, q)
    ensures PatternFrom(chars, m, on, off, i) == chars[i..]
    decreases |chars| - i
  {
    if i < |chars| {
      if OccursAt(chars, m, i) {
        FindMarkerNearest(chars, m, i + |m|);
        assert FindMarker(chars, m, i + |m|).None?;
      }
      PatternAtLiteral(chars, m, on, off, i);
      PatternNoPairFrom(chars, m, on, off, i + 1);
      assert chars[i..] == [chars[i]] + chars[i + 1..];
    } else {
      assert chars[i..] == [];
    }
  }

  lemma {:induction false} PatternNoPair(text: string, m: string, on: string, off: string)
    requires |m| > 0
    requires forall p: nat, q: nat :: p + |m| <= q && OccursAt(text, m, p) ==> !OccursAt(text, m, q)
    ensures MarkdownPattern(text, m, on, off) == text
  {
    PatternNoPairFrom(text, m, on, off, 0);
  }

  /** Text without the marker's first character comes back unchanged. */
  lemma {:induction false} PatternAbsent(text: string, m: string, on: string, off: string)
    requires |m| > 0
    requires Lacks(text, m[0])
    ensures MarkdownPattern(text, m, on, off) == text
  {
    forall p: nat ensures !OccursAt(text, m, p) {
      OccursAtChars(text, m, p);
    }
    PatternNoPair(text, m, on, off);
  }

  // ---------------------------------------------------------------------------
  // Single-asterisk italic scanner: `replace_single_asterisk_italic`
  // ---------------------------------------------------------------------------

  /** A `*` at `i` that neither follows nor precedes another `*` in the buffer. */
  predicate IsItalicOpener(chars: string, i: nat)
  {
    i < |chars| && chars[i] == '*' &&
    !(i > 0 && chars[i - 1] == '*') &&
    !(i + 1 < |chars| && chars[i + 1] == '*')
  }

  /** A `*` at `j` that is not followed by another `*`. */
  predicate IsItalicCloser(chars: string, j: nat)
  {
    j < |chars| && chars[j] == '*' && (j + 1 >= |chars| || chars[j + 1] != '*')
  }

  /** The inner look-ahead loop: the first closer at index `from` or later. */
  function FindItalicCloser(chars: string, from: nat): (r: Option<nat>)
    ensures r.Some? ==> from <= r.value < |chars|
    decreases |chars| - from
  {
    if from >= |chars| then None
    else if IsItalicCloser(chars, from) then Some(from)
    else FindItalicCloser(chars, from + 1)
  }

  /** The look-ahead finds the nearest later closer, and finds nothing only
      when there is no closer left. */
  lemma {:induction false} FindItalicCloserNearest(chars: string, from: nat)
    ensures FindItalicCloser(chars, from).Some? ==>
              var j := FindItalicCloser(chars, from).value;
              from <= j && IsItalicCloser(chars, j) &&
              forall p: nat :: from <= p < j ==> !IsItalicCloser(chars, p)
    ensures FindItalicCloser(chars, from).None? ==> forall p: nat :: from <= p ==> !IsItalicCloser(chars, p)
    decreases |chars| - from
  {
    if from < |chars| && !IsItalicCloser(chars, from) {
      FindItalicCloserNearest(chars, from + 1);
    }
  }

  lemma {:induction false} FindItalicCloserFirst(chars: string, from: nat, j: nat)
    requires from <= j && IsItalicCloser(chars, j)
    requires forall p: nat :: from <= p < j ==> !IsItalicCloser(chars, p)
    ensures FindItalicCloser(chars, from) == Some(j)
    decreases j - from
  {
    if from < j {
      FindItalicCloserFirst(chars, from + 1, j);
    }
  }

  lemma {:induction false} FindItalicCloserAbsent(chars: string, from: nat)
    requires forall p: nat :: from <= p ==> !IsItalicCloser(chars, p)
    ensures FindItalicCloser(chars, from) == None
    decreases |chars| - from
  {
    if from < |chars| {
      FindItalicCloserAbsent(chars, from + 1);
    }
  }

  /** The output the italic scan produces from index `i` on: at an opener with
      a closer, the content wrapped in the italic sequences; at any other
      character, that one character. */
  function ItalicFrom(chars: string, on: string, off: string, i: nat): string
    decreases |chars| - i
  {
    if i >= |chars| then []
    else if IsItalicOpener(chars, i) then
      match FindItalicCloser(chars, i + 1)
      case Some(j) => on + chars[i + 1..j] + off + ItalicFrom(chars, on, off, j + 1)
      case None => [chars[i]] + ItalicFrom(chars, on, off, i + 1)
    else
      [chars[i]] + ItalicFrom(chars, on, off, i + 1)
  }

  /** `replace_single_asterisk_italic(text)` as a value. */
  function SingleAsteriskItalic(text: string): string
  {
    ItalicFrom(text, ItalicOn, Reset, 0)
  }

  lemma {:induction false} ItalicAtPair(chars: string, on: string, off: string, i: nat, j: nat)
    requires IsItalicOpener(chars, i) && FindItalicCloser(chars, i + 1) == Some(j)
    ensures ItalicFrom(chars, on, off, i) == on + chars[i + 1..j] + off + ItalicFrom(chars, on, off, j + 1)
  {
    var tail := ItalicFrom(chars, on, off, j + 1);
    assert ItalicFrom(chars, on, off, i) == on + chars[i + 1..j] + off + tail;
  }

  lemma {:induction false} ItalicAtLiteral(chars: string, on: string, off: string, i: nat)
    requires i < |chars|
    requires !IsItalicOpener(chars, i) || FindItalicCloser(chars, i + 1).None?
    ensures ItalicFrom(chars, on, off, i) == [chars[i]] + ItalicFrom(chars, on, off, i + 1)
  {
    var tail := ItalicFrom(chars, on, off, i + 1);
    assert ItalicFrom(chars, on, off, i) == [chars[i]] + tail;
  }

  /** The scan. */
  method ReplaceSingleAsteriskItalic(text: string) returns (result: string)
    ensures result == SingleAsteriskItalic(text)
  {
    result := [];
    var chars := text;
    var i := 0;
    while i < |chars|
      invariant i <= |chars|
      invariant result + ItalicFrom(chars, ItalicOn, Reset, i) == SingleAsteriskItalic(text)
    {
      if chars[i] == '*' {
        // the neighbour test of IsItalicOpener
        var prevIsAsterisk := i > 0 && chars[i - 1] == '*';
        var nextIsAsterisk := i + 1 < |chars| && chars[i + 1] == '*';
        if !prevIsAsterisk && !nextIsAsterisk {
          // the inner loop looks ahead for the first closer (FindItalicCloser)
          var j := ScanForItalicCloser(chars, i + 1);
          if j < |chars| {
            var content := chars[i + 1..j];
            var span := ItalicOn + content + Reset;
            ItalicAtPair(chars, ItalicOn, Reset, i, j);
            AppendAssoc(result, span, ItalicFrom(chars, ItalicOn, Reset, j + 1));
            result := result + span;
            i := j + 1;
          } else {
            // no closer ahead: the `*` is emitted as it is
            ItalicAtLiteral(chars, ItalicOn, Reset, i);
            AppendAssoc(result, [chars[i]], ItalicFrom(chars, ItalicOn, Reset, i + 1));
            result := result + [chars[i]];
            i := i + 1;
          }
        } else {
          ItalicAtLiteral(chars, ItalicOn, Reset, i);
          AppendAssoc(result, [chars[i]], ItalicFrom(chars, ItalicOn, Reset, i + 1));
          result := result + [chars[i]];
          i := i + 1;
        }
      } else {
        ItalicAtLiteral(chars, ItalicOn, Reset, i);
        AppendAssoc(result, [chars[i]], ItalicFrom(chars, ItalicOn, Reset, i + 1));
        result := result + [chars[i]];
        i := i + 1;
      }
    }
  }

  /** The inner `while j` loop of the italic scan: advances `j` from `from` to
      the first closer, or to the end of the buffer. */
  method ScanForItalicCloser(chars: string, from: nat) returns (j: nat)
    ensures FindItalicCloser(chars, from).Some? <==> j < |chars|
    ensures FindItalicCloser(chars, from).Some? ==> j == FindItalicCloser(chars, from).value
  {
    j := from;
    while j < |chars|
      invariant from <= j
      invariant forall p: nat :: from <= p < j ==> !IsItalicCloser(chars, p)
      decreases |chars| - j
    {
      if chars[j] == '*' && (j + 1 >= |chars| || chars[j + 1] != '*') {
        // IsItalicCloser holds at j
        FindItalicCloserFirst(chars, from, j);
        return;
      }
      j := j + 1;
    }
    FindItalicCloserAbsent(chars, from);
  }

  /** The look-ahead in a suffix finds the same closer, shifted by `k`. */
  lemma {:induction false} FindItalicCloserShift(d: string, chars: string, k: nat, from: nat, from2: nat)
    requires IsShift(d, chars, k) && from == from2 + k
    ensures FindItalicCloser(d, from2).Some? <==> FindItalicCloser(chars, from).Some?
    ensures FindItalicCloser(d, from2).Some? ==> FindItalicCloser(chars, from).value == FindItalicCloser(d, from2).value + k
    decreases |chars| - from
  {
    if from < |chars| && !IsItalicCloser(chars, from) {
      FindItalicCloserShift(d, chars, k, from + 1, from2 + 1);
    }
  }

  /** The italic scan of a suffix: only the opener test looks one character
      back, so the scan from `i` of a buffer equals the scan of the suffix
      from `k` on unless `i` is the first index of the suffix and the looked-at
      `*` is preceded by a `*` that the suffix cut away. */
  predicate SameLookBehind(chars: string, k: nat, i: nat)
    requires k <= i <= |chars|
  {
    i > k || k == 0 || chars[k - 1] != '*' || i == |chars| || chars[i] != '*'
  }

  /** The italic scan of `chars` from `i` equals the scan of its suffix `d`
      (from `k` on) from the matching index `i2`. */
  lemma {:induction false} ItalicShift(d: string, chars: string, on: string, off: string, k: nat, i: nat, i2: nat)
    requires IsShift(d, chars, k) && i == i2 + k && i <= |chars|
    requires SameLookBehind(chars, k, i)
    ensures ItalicFrom(chars, on, off, i) == ItalicFrom(d, on, off, i2)
    decreases |chars| - i, 2
  {
    if i < |chars| {
      assert IsItalicOpener(chars, i) <==> IsItalicOpener(d, i2);
      if IsItalicOpener(chars, i) && FindItalicCloser(chars, i + 1).Some? {
        ItalicShiftPair(d, chars, on, off, k, i, i2);
      } else {
        ItalicShiftLiteral(d, chars, on, off, k, i, i2);
      }
    }
  }

  /** Two buffers whose italic scans agree after a span agree from its opener on. */
  lemma {:induction false} ItalicPairAgree(chars: string, d: string, on: string, off: string, k: nat, i: nat, i2: nat, j: nat, j2: nat)
    requires IsShift(d, chars, k) && i == i2 + k && j == j2 + k
    requires IsItalicOpener(chars, i) && FindItalicCloser(chars, i + 1) == Some(j)
    requires IsItalicOpener(d, i2) && FindItalicCloser(d, i2 + 1) == Some(j2)
    requires ItalicFrom(chars, on, off, j + 1) == ItalicFrom(d, on, off, j2 + 1)
    ensures ItalicFrom(chars, on, off, i) == ItalicFrom(d, on, off, i2)
  {
    SliceShift(d, chars, k, i + 1, j, i2 + 1, j2);
    ItalicAtPair(chars, on, off, i, j);
    ItalicAtPair(d, on, off, i2, j2);
  }

  /** Two buffers whose italic scans agree after a literal character agree from it on. */
  lemma {:induction false} ItalicLiteralAgree(chars: string, d: string, on: string, off: string, i: nat, i2: nat)
    requires i < |chars| && i2 < |d| && chars[i] == d[i2]
    requires !IsItalicOpener(chars, i) || FindItalicCloser(chars, i + 1).None?
    requires !IsItalicOpener(d, i2) || FindItalicCloser(d, i2 + 1).None?
    requires ItalicFrom(chars, on, off, i + 1) == ItalicFrom(d, on, off, i2 + 1)
    ensures ItalicFrom(chars, on, off, i) == ItalicFrom(d, on, off, i2)
  {
    ItalicAtLiteral(chars, on, off, i);
    ItalicAtLiteral(d, on, off, i2);
  }

  lemma {:induction false} ItalicShiftPair(d: string, chars: string, on: string, off: string, k: nat, i: nat, i2: nat)
    requires IsShift(d, chars, k) && i == i2 + k && i < |chars|
    requires IsItalicOpener(chars, i) && IsItalicOpener(d, i2)
    requires FindItalicCloser(chars, i + 1).Some?
    ensures ItalicFrom(chars, on, off, i) == ItalicFrom(d, on, off, i2)
    decreases |chars| - i, 1
  {
    var j, j2 := ItalicShiftAfterSpan(d, chars, on, off, k, i, i2);
    ItalicPairAgree(chars, d, on, off, k, i, i2, j, j2);
  }

  /** A span found in a buffer is found in its suffix, shifted by `k`, and the
      scans after the two closers agree. */
  lemma {:induction false} ItalicShiftAfterSpan(d: string, chars: string, on: string, off: string, k: nat, i: nat, i2: nat)
    returns (j: nat, j2: nat)
    requires IsShift(d, chars, k) && i == i2 + k && i < |chars|
    requires FindItalicCloser(chars, i + 1).Some?
    ensures FindItalicCloser(chars, i + 1) == Some(j) && FindItalicCloser(d, i2 + 1) == Some(j2)
    ensures j == j2 + k
    ensures ItalicFrom(chars, on, off, j + 1) == ItalicFrom(d, on, off, j2 + 1)
    decreases |chars| - i, 0
  {
    j, j2 := ItalicSpanShift(d, chars, k, i, i2);
    ItalicShift(d, chars, on, off, k, j + 1, j2 + 1);
  }

  /** A span found in a buffer is found in its suffix, shifted by `k`. */
  lemma {:induction false} ItalicSpanShift(d: string, chars: string, k: nat, i: nat, i2: nat)
    returns (j: nat, j2: nat)
    requires IsShift(d, chars, k) && i == i2 + k && i < |chars|
    requires FindItalicCloser(chars, i + 1).Some?
    ensures FindItalicCloser(chars, i + 1) == Some(j) && FindItalicCloser(d, i2 + 1) == Some(j2)
    ensures j == j2 + k
  {
    FindItalicCloserShift(d, chars, k, i + 1, i2 + 1);
    j := FindItalicCloser(chars, i + 1).value;
    j2 := FindItalicCloser(d, i2 + 1).value;
  }

  lemma {:induction false} ItalicShiftLiteral(d: string, chars: string, on: string, off: string, k: nat, i: nat, i2: nat)
    requires IsShift(d, chars, k) && i == i2 + k && i < |chars|
    requires IsItalicOpener(chars, i) <==> IsItalicOpener(d, i2)
    requires !IsItalicOpener(chars, i) || FindItalicCloser(chars, i + 1).None?
    ensures ItalicFrom(chars, on, off, i) == ItalicFrom(d, on, off, i2)
    decreases |chars| - i, 0
  {
    FindItalicCloserShift(d, chars, k, i + 1, i2 + 1);
    ItalicShift(d, chars, on, off, k, i + 1, i2 + 1);
    ItalicLiteralAgree(chars, d, on, off, i, i2);
  }

  /** The scan from index `k` of a buffer is the scan of its suffix from `k`
      on, unless a `*` at `k` follows a `*` that the suffix cut away. */
  lemma {:induction false} ItalicDrop(chars: string, on: string, off: string, k: nat)
    requires k <= |chars| && SameLookBehind(chars, k, k)
    ensures ItalicFrom(chars, on, off, k) == ItalicFrom(chars[k..], on, off, 0)
  {
    DropIsShift(chars, k);
    ItalicShift(chars[k..], chars, on, off, k, k, 0);
  }

  /** Characters that cannot open an italic span are copied through one by one. */
  lemma {:induction false} ItalicCopyFrom(chars: string, on: string, off: string, i: nat, n: nat)
    requires i <= n <= |chars|
    requires forall p: nat :: i <= p < n ==> !IsItalicOpener(chars, p)
    ensures ItalicFrom(chars, on, off, i) == chars[i..n] + ItalicFrom(chars, on, off, n)
    decreases n - i
  {
    if i < n {
      ItalicAtLiteral(chars, on, off, i);
      ItalicCopyFrom(chars, on, off, i + 1, n);
      assert chars[i..n] == [chars[i]] + chars[i + 1..n];
      AppendAssoc([chars[i]], chars[i + 1..n], ItalicFrom(chars, on, off, n));
    } else {
      assert chars[i..n] == [];
    }
  }

  /** Text in which no `*` can open an italic span (it has no `*` at all, or
      every `*` touches another `*`, as what is left of bold markers does) is
      returned unchanged. */
  lemma {:induction false} ItalicNoOpener(text: string, on: string, off: string)
    requires forall p: nat :: !IsItalicOpener(text, p)
    ensures ItalicFrom(text, on, off, 0) == text
  {
    ItalicCopyFrom(text, on, off, 0, |text|);
    assert text[0..|text|] == text;
  }

  /** Text with no `*` at all is returned unchanged. */
  lemma {:induction false} ItalicNoStar(text: string, on: string, off: string)
    requires Lacks(text, '*')
    ensures ItalicFrom(text, on, off, 0) == text
  {
    ItalicNoOpener(text, on, off);
  }

  /** Text in which no opener has a closer after it is returned unchanged, so
      an unmatched single `*` stays literal. */
  lemma {:induction false} ItalicNoPairFrom(chars: string, on: string, off: string, i: nat)
    requires i <= |chars|
    requires forall p: nat, q: nat :: i <= p < q && IsItalicOpener(chars, p) ==> !IsItalicCloser(chars, q)
    ensures ItalicFrom(chars, on, off, i) == chars[i..]
    decreases |chars| - i
  {
    if i < |chars| {
      if IsItalicOpener(chars, i) {
        FindItalicCloserAbsent(chars, i + 1);
      }
      ItalicAtLiteral(chars, on, off, i);
      ItalicNoPairFrom(chars, on, off, i + 1);
      assert chars[i..] == [chars[i]] + chars[i + 1..];
    } else {
      assert chars[i..] == [];
    }
  }

  lemma {:induction false} ItalicNoPair(text: string, on: string, off: string)
    requires forall p: nat, q: nat :: p < q && IsItalicOpener(text, p) ==> !IsItalicCloser(text, q)
    ensures ItalicFrom(text, on, off, 0) == text
  {
    ItalicNoPairFrom(text, on, off, 0);
  }

  /** A lone `*` with no `*` after it is emitted literally. */
  lemma {:induction false} ItalicUnclosed(a: string, b: string, on: string, off: string)
    requires Lacks(b, '*')
    requires forall p: nat :: !IsItalicOpener(a, p)
    ensures ItalicFrom(a + "*" + b, on, off, 0) == a + "*" + b
  {
    var t := a + "*" + b;
    forall p: nat | p < |a| ensures !IsItalicOpener(t, p) {
      assert !IsItalicOpener(a, p);
      if p + 1 < |a| { assert t[p + 1] == a[p + 1]; }
    }
    forall p: nat | |a| < p ensures !IsItalicOpener(t, p) {
      if p < |t| { assert t[p] == b[p - |a| - 1]; }
    }
    forall p: nat, q: nat | p < q && IsItalicOpener(t, p) ensures !IsItalicCloser(t, q) {
      if q < |t| { assert t[q] == b[q - |a| - 1]; }
    }
    ItalicNoPair(t, on, off);
  }

  /** In `"*" + c + "*" + rest`, the leading `*` opens a span that the second
      `*` closes when `c` starts with a character other than `*` and no `*`
      inside `c` can close (each is followed by another `*`). */
  lemma {:induction false} ItalicSpanCloser(c: string, rest: string)
    requires |c| > 0 && c[0] != '*'
    requires forall p: nat :: p < |c| ==> !IsItalicCloser(c + "*", p)
    requires |rest| == 0 || rest[0] != '*'
    ensures IsItalicOpener("*" + c + "*" + rest, 0)
    ensures FindItalicCloser("*" + c + "*" + rest, 1) == Some(|c| + 1)
  {
    var t := "*" + c + "*" + rest;
    var n := |c| + 1;
    assert t[1] == c[0];
    forall p: nat | 1 <= p < n ensures !IsItalicCloser(t, p) {
      assert !IsItalicCloser(c + "*", p - 1);
      assert t[p] == (c + "*")[p - 1] && t[p + 1] == (c + "*")[p];
    }
    assert t[n] == '*';
    assert n + 1 < |t| ==> t[n + 1] == rest[0];
    FindItalicCloserFirst(t, 1, n);
  }

  /** A single-asterisk span: the content is wrapped in the italic sequences
      and the scan resumes after the closer as if the rest stood alone. */
  lemma {:induction false} ItalicSpan(c: string, rest: string, on: string, off: string)
    requires |c| > 0 && c[0] != '*'
    requires forall p: nat :: p < |c| ==> !IsItalicCloser(c + "*", p)
    requires |rest| == 0 || rest[0] != '*'
    ensures ItalicFrom("*" + c + "*" + rest, on, off, 0) == on + c + off + ItalicFrom(rest, on, off, 0)
  {
    var t := "*" + c + "*" + rest;
    ItalicSpanCloser(c, rest);
    assert t[1..|c| + 1] == c && t[|c| + 2..] == rest;
    ItalicSpanAt(t, c, rest, on, off, |c| + 1);
  }

  /** The span step on any buffer that opens with an italic span closed at `j`. */
  lemma {:induction false} ItalicSpanAt(t: string, c: string, rest: string, on: string, off: string, j: nat)
    requires IsItalicOpener(t, 0) && FindItalicCloser(t, 1) == Some(j)
    requires t[1..j] == c && t[j + 1..] == rest
    requires j + 1 == |t| || t[j + 1] != '*'
    ensures ItalicFrom(t, on, off, 0) == on + c + off + ItalicFrom(rest, on, off, 0)
  {
    var tail := ItalicFrom(t, on, off, j + 1);
    ItalicAtPair(t, on, off, 0, j);
    ItalicDrop(t, on, off, j + 1);
    assert tail == ItalicFrom(rest, on, off, 0);
    assert ItalicFrom(t, on, off, 0) == on + c + off + tail;
  }

  /** Prefix copy for the italic scan: a prefix in which no `*` opens a span
      is emitted verbatim, and the rest is scanned as if it stood alone when
      the prefix does not end in a `*` that the rest would look back at. */
  lemma {:induction false} ItalicCopy(a: string, rest: string, on: string, off: string)
    requires forall p: nat :: p < |a| ==> !IsItalicOpener(a + rest, p)
    requires |a| == 0 || a[|a| - 1] != '*' || |rest| == 0 || rest[0] != '*'
    ensures ItalicFrom(a + rest, on, off, 0) == a + ItalicFrom(rest, on, off, 0)
  {
    var t := a + rest;
    ItalicCopyFrom(t, on, off, 0, |a|);
    ItalicDrop(t, on, off, |a|);
    assert t[0..|a|] == a && t[|a|..] == rest;
  }

  // ---------------------------------------------------------------------------
  // The whole formatter: `format_for_terminal`
  // ---------------------------------------------------------------------------

  /** The five passes in their fixed order, each over the whole result of the
      previous one: fences, bold, inline code, strikethrough, italic. */
  function FormatForTerminal(text: string): (r: string)
    ensures Plain(text) ==> r == text
  {
    var noFences := RemoveFences(text);
    var bold := MarkdownPattern(noFences, "**", BoldOn, Reset);
    var code := MarkdownPattern(bold, "`", CodeOn, Reset);
    var strike := MarkdownPattern(code, "~~", StrikeOn, Reset);
    if Plain(text) then
      // every pass only copies characters through
      RemoveFencesIdentity(text);
      PatternAbsent(text, "**", BoldOn, Reset);
      LaterPassesIdentity(text);
      SingleAsteriskItalic(strike)
    else
      SingleAsteriskItalic(strike)
  }

  /** None of the characters any pass reacts to. */
  predicate Plain(s: string)
  {
    Lacks(s, '*') && Lacks(s, '`') && Lacks(s, '~')
  }

  lemma {:induction false} PlainConcat(a: string, b: string)
    requires Plain(a) && Plain(b)
    ensures Plain(a + b)
  {
    LacksConcat(a, b, '*');
    LacksConcat(a, b, '`');
    LacksConcat(a, b, '~');
  }

  /** The escape sequences contain none of the marker characters. */
  lemma {:induction false} EscapesPlain()
    ensures Plain(BoldOn) && Plain(CodeOn) && Plain(StrikeOn) && Plain(ItalicOn) && Plain(Reset)
  {
  }

  /** Plain content wrapped in an escape sequence and a reset stays plain. */
  lemma {:induction false} PlainWrapped(on: string, c: string)
    requires Plain(on) && Plain(c)
    ensures Plain(on + c + Reset)
  {
    EscapesPlain();
    PlainConcat(on, c);
    PlainConcat(on + c, Reset);
  }

  /** The strikethrough and italic passes leave plain text alone. */
  lemma {:induction false} LastPassesIdentity(s: string)
    requires Lacks(s, '~') && Lacks(s, '*')
    ensures SingleAsteriskItalic(MarkdownPattern(s, "~~", StrikeOn, Reset)) == s
  {
    PatternAbsent(s, "~~", StrikeOn, Reset);
    ItalicNoStar(s, ItalicOn, Reset);
  }

  /** The code, strikethrough and italic passes leave plain text alone. */
  lemma {:induction false} LaterPassesIdentity(s: string)
    requires Plain(s)
    ensures SingleAsteriskItalic(MarkdownPattern(MarkdownPattern(s, "`", CodeOn, Reset), "~~", StrikeOn, Reset)) == s
  {
    PatternAbsent(s, "`", CodeOn, Reset);
    LastPassesIdentity(s);
  }

  /** A marker around text that lacks the marker's first character forms a span. */
  lemma {:induction false} SpanFree(c: string, m: string)
    requires |m| > 0 && Lacks(c, m[0])
    ensures forall p: nat :: p < |c| ==> !OccursAt(c + m, m, p)
  {
    forall p: nat | p < |c| ensures !OccursAt(c + m, m, p) {
      OccursAtChars(c + m, m, p);
      assert (c + m)[p] == c[p];
    }
  }

  /** A paired pass over a lone span around content without the marker's
      first character. */
  lemma {:induction false} PatternWrap(c: string, m: string, on: string, off: string)
    requires |m| > 0 && Lacks(c, m[0])
    ensures MarkdownPattern(m + c + m, m, on, off) == on + c + off
  {
    SpanFree(c, m);
    PatternSpan(c, [], m, on, off);
    assert m + c + m + [] == m + c + m;
    assert MarkdownPattern([], m, on, off) == [];
    assert on + c + off + [] == on + c + off;
  }

  /** A bold span around plain content: `"**" + c + "**"` becomes the content
      between the bold and reset sequences; with `c` empty (`"****"`) the span
      is empty. */
  lemma {:induction false} FormatBoldSpan(c: string)
    requires Plain(c)
    ensures FormatForTerminal("**" + c + "**") == BoldOn + c + Reset
  {
    var t := "**" + c + "**";
    assert Lacks(t, '`');
    RemoveFencesIdentity(t);
    PatternWrap(c, "**", BoldOn, Reset);
    PlainWrapped(BoldOn, c);
    LaterPassesIdentity(BoldOn + c + Reset);
    assert RemoveFences(t) == t;
    assert MarkdownPattern(t, "**", BoldOn, Reset) == BoldOn + c + Reset;
  }

  /** An inline-code span around plain content. */
  lemma {:induction false} FormatCodeSpan(c: string)
    requires Plain(c)
    ensures FormatForTerminal("`" + c + "`") == CodeOn + c + Reset
  {
    var t := "`" + c + "`";
    forall p: nat ensures !OccursAt(t, Fence, p) {
      OccursAtChars(t, Fence, p);
      if p + 3 <= |t| {
        assert Fence[0] == '`' && Fence[1] == '`';
        if p == 0 { assert t[1] == c[0]; } else { assert t[p] == c[p - 1]; }
      }
    }
    RemoveFencesNoFence(t);
    assert Lacks(t, '*');
    PatternAbsent(t, "**", BoldOn, Reset);
    PatternWrap(c, "`", CodeOn, Reset);
    PlainWrapped(CodeOn, c);
    LastPassesIdentity(CodeOn + c + Reset);
    assert MarkdownPattern(t, "`", CodeOn, Reset) == CodeOn + c + Reset;
  }

  /** A strikethrough span around plain content. */
  lemma {:induction false} FormatStrikeSpan(c: string)
    requires Plain(c)
    ensures FormatForTerminal("~~" + c + "~~") == StrikeOn + c + Reset
  {
    var t := "~~" + c + "~~";
    assert Lacks(t, '`') && Lacks(t, '*');
    RemoveFencesIdentity(t);
    PatternAbsent(t, "**", BoldOn, Reset);
    PatternAbsent(t, "`", CodeOn, Reset);
    PatternWrap(c, "~~", StrikeOn, Reset);
    PlainWrapped(StrikeOn, c);
    ItalicNoStar(StrikeOn + c + Reset, ItalicOn, Reset);
    assert MarkdownPattern(t, "~~", StrikeOn, Reset) == StrikeOn + c + Reset;
  }

  /** An italic span around non-empty plain content. */
  lemma {:induction false} FormatItalicSpan(c: string)
    requires Plain(c) && |c| > 0
    ensures FormatForTerminal("*" + c + "*") == ItalicOn + c + Reset
  {
    var t := "*" + c + "*";
    assert Lacks(t, '`') && Lacks(t, '~');
    RemoveFencesIdentity(t);
    forall p: nat ensures !OccursAt(t, "**", p) {
      OccursAtChars(t, "**", p);
      if p + 2 <= |t| {
        if p == 0 { assert t[1] == c[0]; } else { assert t[p] == c[p - 1]; }
      }
    }
    PatternNoPair(t, "**", BoldOn, Reset);
    PatternAbsent(t, "`", CodeOn, Reset);
    PatternAbsent(t, "~~", StrikeOn, Reset);
    forall p: nat | p < |c| ensures !IsItalicCloser(c + "*", p) {
      assert (c + "*")[p] == c[p];
    }
    ItalicSpan(c, [], ItalicOn, Reset);
    assert "*" + c + "*" + [] == t;
    assert ItalicFrom([], ItalicOn, Reset, 0) == [];
    assert ItalicOn + c + Reset + [] == ItalicOn + c + Reset;
  }

  /** A fenced block: the fences are deleted and plain content is kept as is,
      with no escape sequence. */
  lemma {:induction false} FormatFencedBlock(c: string)
    requires Plain(c)
    ensures FormatForTerminal(Fence + c + Fence) == c
  {
    var t := Fence + c + Fence;
    OccursAtSlice(t, Fence, 0);
    assert t[0..3] == Fence && t[3..] == c + Fence;
    assert RemoveFences(t) == RemoveFences(c + Fence);
    LacksNoFence(c, Fence);
    RemoveFencesCopy(c, Fence);
    assert Fence[0..3] == Fence && Fence[3..] == [];
    assert RemoveFences(Fence) == [];
    assert RemoveFences(t) == c;
    PatternAbsent(c, "**", BoldOn, Reset);
    LaterPassesIdentity(c);
  }

  /** An unmatched bold opener degrades to literal text: `"**" + c` comes back
      unchanged, with no escape sequence. */
  lemma {:induction false} FormatUnmatchedBold(c: string)
    requires Plain(c)
    ensures FormatForTerminal("**" + c) == "**" + c
  {
    var t := "**" + c;
    assert Lacks(t, '`') && Lacks(t, '~');
    RemoveFencesIdentity(t);
    forall p: nat, q: nat | p + 2 <= q && OccursAt(t, "**", p) ensures !OccursAt(t, "**", q) {
      OccursAtChars(t, "**", q);
      if q < |t| { assert t[q] == c[q - 2]; }
    }
    PatternNoPair(t, "**", BoldOn, Reset);
    PatternAbsent(t, "`", CodeOn, Reset);
    PatternAbsent(t, "~~", StrikeOn, Reset);
    forall p: nat ensures !IsItalicOpener(t, p) {
      if 2 <= p < |t| { assert t[p] == c[p - 2]; }
    }
    ItalicNoOpener(t, ItalicOn, Reset);
  }

  /** The passes run over the whole previous result, so the italic pass reaches
      inside a bold span: `**a*b*c**` gives bold `a`, italic `b`, reset, `c`,
      reset, rather than a bold span with literal asterisks. */
  lemma {:induction false} FormatItalicInsideBold(a: string, b: string, c: string)
    requires Plain(a) && Plain(b) && Plain(c) && |b| > 0 && |c| > 0
    ensures FormatForTerminal("**" + a + "*" + b + "*" + c + "**")
         == BoldOn + a + ItalicOn + b + Reset + c + Reset
  {
    var k := a + "*" + b + "*" + c;
    var t := "**" + k + "**";
    assert t == "**" + a + "*" + b + "*" + c + "**";
    assert Lacks(t, '`');
    RemoveFencesIdentity(t);
    BoldAroundItalic(a, b, c);
    ItalicAfterBold(a, b, c);
  }

  /** The bold pass on `**a*b*c**` wraps `a*b*c` as a whole. */
  lemma {:induction false} BoldAroundItalic(a: string, b: string, c: string)
    requires Plain(a) && Plain(b) && Plain(c) && |b| > 0 && |c| > 0
    ensures MarkdownPattern("**" + (a + "*" + b + "*" + c) + "**", "**", BoldOn, Reset)
         == BoldOn + (a + "*" + b + "*" + c) + Reset
  {
    var k := a + "*" + b + "*" + c;
    BoldContentUnpaired(a, b, c);
    PatternSpan(k, [], "**", BoldOn, Reset);
    assert "**" + k + "**" + [] == "**" + k + "**";
    assert MarkdownPattern([], "**", BoldOn, Reset) == [];
    assert BoldOn + k + Reset + [] == BoldOn + k + Reset;
  }

  /** Inside `a*b*c` followed by the bold closer, the closer is the first `**`. */
  lemma {:induction false} BoldContentUnpaired(a: string, b: string, c: string)
    requires Plain(a) && Plain(b) && Plain(c) && |b| > 0 && |c| > 0
    ensures forall p: nat :: p < |a + "*" + b + "*" + c| ==> !OccursAt(a + "*" + b + "*" + c + "**", "**", p)
  {
    var k := a + "*" + b + "*" + c;
    var s := k + "**";
    forall p: nat | p < |k| ensures !OccursAt(s, "**", p) {
      OccursAtChars(s, "**", p);
      if p < |a| {
        assert s[p] == a[p];
      } else if p == |a| {
        assert s[p + 1] == b[0];
      } else if p < |a| + 1 + |b| {
        assert s[p] == b[p - |a| - 1];
      } else if p == |a| + 1 + |b| {
        assert s[p + 1] == c[0];
      } else {
        assert s[p] == c[p - |a| - 2 - |b|];
      }
    }
  }

  /** The code, strikethrough and italic passes over the bold pass's output
      for `**a*b*c**`. */
  lemma {:induction false} ItalicAfterBold(a: string, b: string, c: string)
    requires Plain(a) && Plain(b) && Plain(c) && |b| > 0 && |c| > 0
    ensures var u := BoldOn + (a + "*" + b + "*" + c) + Reset;
      SingleAsteriskItalic(MarkdownPattern(MarkdownPattern(u, "`", CodeOn, Reset), "~~", StrikeOn, Reset))
      == BoldOn + a + ItalicOn + b + Reset + c + Reset
  {
    var u := BoldOn + (a + "*" + b + "*" + c) + Reset;
    EscapesPlain();
    assert Lacks(u, '`') && Lacks(u, '~');
    PatternAbsent(u, "`", CodeOn, Reset);
    PatternAbsent(u, "~~", StrikeOn, Reset);
    ItalicInsideBold(a, b, c);
  }

  /** The italic pass over the bold pass's output for `**a*b*c**`. */
  lemma {:induction false} ItalicInsideBold(a: string, b: string, c: string)
    requires Plain(a) && Plain(b) && Plain(c) && |b| > 0 && |c| > 0
    ensures SingleAsteriskItalic(BoldOn + (a + "*" + b + "*" + c) + Reset)
         == BoldOn + a + ItalicOn + b + Reset + c + Reset
  {
    EscapesPlain();
    PlainConcat(BoldOn, a);
    PlainConcat(c, Reset);
    ItalicBetween(BoldOn + a, b, c + Reset, ItalicOn, Reset);
    assert BoldOn + a + "*" + b + "*" + (c + Reset) == BoldOn + (a + "*" + b + "*" + c) + Reset;
    assert BoldOn + a + ItalicOn + b + Reset + (c + Reset) == BoldOn + a + ItalicOn + b + Reset + c + Reset;
  }

  /** One italic span between text without `*`. */
  lemma {:induction false} ItalicBetween(pre: string, b: string, post: string, on: string, off: string)
    requires Lacks(pre, '*') && Lacks(b, '*') && Lacks(post, '*') && |b| > 0
    ensures ItalicFrom(pre + "*" + b + "*" + post, on, off, 0) == pre + on + b + off + post
  {
    var rest := "*" + b + "*" + post;
    assert pre + "*" + b + "*" + post == pre + rest;
    ItalicCopyStarless(pre, rest, on, off);
    ItalicLoneSpan(b, post, on, off);
  }

  /** A prefix without `*` is copied through the italic pass. */
  lemma {:induction false} ItalicCopyStarless(pre: string, rest: string, on: string, off: string)
    requires Lacks(pre, '*')
    ensures ItalicFrom(pre + rest, on, off, 0) == pre + ItalicFrom(rest, on, off, 0)
  {
    forall p: nat | p < |pre| ensures !IsItalicOpener(pre + rest, p) {
      assert (pre + rest)[p] == pre[p];
    }
    ItalicCopy(pre, rest, on, off);
  }

  /** A span around content without `*`, followed by text without `*`. */
  lemma {:induction false} ItalicLoneSpan(b: string, rest: string, on: string, off: string)
    requires Lacks(b, '*') && Lacks(rest, '*') && |b| > 0
    ensures ItalicFrom("*" + b + "*" + rest, on, off, 0) == on + b + off + rest
  {
    forall p: nat | p < |b| ensures !IsItalicCloser(b + "*", p) {
      assert (b + "*")[p] == b[p];
    }
    ItalicSpan(b, rest, on, off);
    ItalicNoStar(rest, on, off);
  }
}
