/**
  Markup stripping (stripHTML in pipeline.go).

  The scanner walks a byte slice once. Outside a tag it copies bytes; a `<`
  opens a tag. Inside a tag a double quote toggles the quoted state, an
  unquoted `>` closes the tag (nothing of it is written), and an unquoted `<`
  is a "false start": the pending tag text is written verbatim and a new tag
  starts at the new `<`. At the end of input an unterminated tag is written
  verbatim too.

  `Strip` is a reference definition that reads the input tag by tag;
  `StripHTML` is the byte-by-byte state machine of the source, proved equal
  to it. The lemmas below state what the stripper promises.
*/
module Markup {

  newtype byte = b: int | 0 <= b < 0x100

  const LT: byte := 0x3C     // '<'
  const GT: byte := 0x3E     // '>'
  const QUOTE: byte := 0x22  // '"'

  /** The quoted state after reading `ch` inside a tag. */
  function Toggle(ch: byte, q: bool): bool
  {
    if ch == QUOTE then !q else q
  }

  /**
    The first index at or after `k` holding an unquoted `>` or `<`, scanning
    inside a tag from quoted state `q`; `|s|` when there is none.
  */
  function TagEnd(s: seq<byte>, k: nat, q: bool): (j: nat)
    requires k <= |s|
    ensures k <= j <= |s|
    ensures j < |s| ==> s[j] == GT || s[j] == LT
    decreases |s| - k
  {
    if k == |s| then |s|
    else if !q && (s[k] == GT || s[k] == LT) then k
    else TagEnd(s, k + 1, Toggle(s[k], q))
  }

  /**
    Reference definition of the stripper. A byte other than `<` is kept; a
    `<` opens a tag that runs to the first unquoted `>` or `<` after it. A tag
    closed by `>` is dropped, a tag cut short by `<` is kept verbatim and
    scanning restarts at that `<`, and a tag that reaches the end of input is
    kept verbatim.
  */
  function Strip(s: seq<byte>): (r: seq<byte>)
    ensures |r| <= |s|
    decreases |s|
  {
    if s == [] then []
    else if s[0] != LT then [s[0]] + Strip(s[1..])
    else
      var j := TagEnd(s, 1, false);
      if j == |s| then s
      else if s[j] == GT then Strip(s[j + 1..])
      else s[..j] + Strip(s[j..])
  }

  /**
    What the scanner knows after reading `s[..i]`: outside a tag, `buf`
    followed by the stripped rest is the whole answer; inside a tag opened
    at `tagStart`, the scan so far agrees with `TagEnd` and `buf` followed by
    the stripped text from `tagStart` is the whole answer.
  */
  ghost predicate ScanState(s: seq<byte>, i: nat, buf: seq<byte>, inTag: bool, inQuotes: bool, tagStart: nat)
  {
    && i <= |s|
    && (!inTag ==> !inQuotes && Strip(s) == buf + Strip(s[i..]))
    && (inTag ==>
          && tagStart < i && s[tagStart] == LT
          && TagEnd(s[tagStart..], 1, false) == TagEnd(s[tagStart..], i - tagStart, inQuotes)
          && Strip(s) == buf + Strip(s[tagStart..]))
  }

  lemma TagClosed(t: seq<byte>, m: nat)
    requires 0 < m < |t| && t[0] == LT && t[m] == GT
    requires TagEnd(t, 1, false) == TagEnd(t, m, false)
    ensures Strip(t) == Strip(t[m + 1..])
  {
  }

  lemma TagRestarted(t: seq<byte>, m: nat)
    requires 0 < m < |t| && t[0] == LT && t[m] == LT
    requires TagEnd(t, 1, false) == TagEnd(t, m, false)
    ensures Strip(t) == t[..m] + Strip(t[m..])
  {
  }

  lemma TagUnterminated(t: seq<byte>, q: bool)
    requires 0 < |t| && t[0] == LT
    requires TagEnd(t, 1, false) == TagEnd(t, |t|, q)
    ensures Strip(t) == t
  {
  }

  lemma PlainByte(u: seq<byte>)
    requires u != [] && u[0] != LT
    ensures Strip(u) == [u[0]] + Strip(u[1..])
  {
  }

  /** One step of the scanner inside a tag keeps `ScanState`. */
  lemma InTagStep(s: seq<byte>, i: nat, buf: seq<byte>, q: bool, tagStart: nat)
    requires i < |s| && ScanState(s, i, buf, true, q, tagStart)
    ensures s[i] == GT && !q ==> ScanState(s, i + 1, buf, false, q, tagStart)
    ensures s[i] == LT && !q ==> ScanState(s, i + 1, buf + s[tagStart..i], true, q, i)
    ensures !((s[i] == GT || s[i] == LT) && !q) ==> ScanState(s, i + 1, buf, true, Toggle(s[i], q), tagStart)
  {
    var t, m := s[tagStart..], i - tagStart;
    assert t[m] == s[i];
    if s[i] == GT && !q {
      TagClosed(t, m);
      assert t[m + 1..] == s[i + 1..];
    } else if s[i] == LT && !q {
      TagRestarted(t, m);
      assert t[..m] == s[tagStart..i] && t[m..] == s[i..];
      assert s[i..][1..] == s[i + 1..];
    }
  }

  /** One step of the scanner outside a tag keeps `ScanState`. */
  lemma OutsideStep(s: seq<byte>, i: nat, buf: seq<byte>, tagStart: nat)
    requires i < |s| && ScanState(s, i, buf, false, false, tagStart)
    ensures s[i] == LT ==> ScanState(s, i + 1, buf, true, false, i)
    ensures s[i] != LT ==> ScanState(s, i + 1, buf + [s[i]], false, false, tagStart)
  {
    if s[i] != LT {
      PlainByte(s[i..]);
      assert s[i..][1..] == s[i + 1..];
    }
  }

  /** The scanner of the source: one pass with `inTag`, `inQuotes` and `tagStart`. */
  method StripHTML(s: seq<byte>) returns (r: seq<byte>)
    ensures r == Strip(s)
  {
    var buf: seq<byte> := [];
    var inTag, inQuotes := false, false;
    var tagStart := 0;
    for i := 0 to |s|
      invariant ScanState(s, i, buf, inTag, inQuotes, tagStart)
    {
      var ch := s[i];
      if inTag {
        InTagStep(s, i, buf, inQuotes, tagStart);
        if ch == GT && !inQuotes {
          inTag := false;
        } else if ch == LT && !inQuotes {
          buf := buf + s[tagStart..i];
          tagStart := i;
        } else if ch == QUOTE {
          inQuotes := !inQuotes;
        }
      } else if ch == LT {
        OutsideStep(s, i, buf, tagStart);
        inTag := true;
        tagStart := i;
      } else {
        OutsideStep(s, i, buf, tagStart);
        buf := buf + [ch];
      }
    }
    if inTag {
      TagUnterminated(s[tagStart..], inQuotes);
      buf := buf + s[tagStart..];
      inTag := false;
    }
    r := buf;
  }

  /** Input without `<` comes back unchanged. */
  lemma {:induction false} NoTagUnchanged(s: seq<byte>)
    requires forall k :: 0 <= k < |s| ==> s[k] != LT
    ensures Strip(s) == s
    decreases |s|
  {
    if s != [] {
      NoTagUnchanged(s[1..]);
    }
  }

  /** Text without `<` in front of the rest is copied through unchanged. */
  lemma {:induction false} PlainPrefix(a: seq<byte>, b: seq<byte>)
    requires forall k :: 0 <= k < |a| ==> a[k] != LT
    ensures Strip(a + b) == a + Strip(b)
    decreases |a|
  {
    if a == [] {
      assert a + b == b;
    } else {
      PlainByte(a + b);
      assert (a + b)[1..] == a[1..] + b;
      PlainPrefix(a[1..], b);
      assert a + Strip(b) == [a[0]] + (a[1..] + Strip(b));
    }
  }

  /**
    `t` holds no unquoted `>` or `<` when read inside a tag from quoted state
    `q`: a bracket between double quotes does not count.
  */
  predicate Inert(t: seq<byte>, q: bool)
    decreases |t|
  {
    t == [] || ((q || (t[0] != GT && t[0] != LT)) && Inert(t[1..], Toggle(t[0], q)))
  }

  /** The quoted state after reading `t` inside a tag from quoted state `q`. */
  function QuotedAfter(t: seq<byte>, q: bool): bool
    decreases |t|
  {
    if t == [] then q else QuotedAfter(t[1..], Toggle(t[0], q))
  }

  /**
    The stop `TagEnd` finds is the first unquoted bracket: the stretch it
    scans over is inert, and the quotes are closed when it stops at a bracket.
  */
  lemma {:induction false} TagEndFirstBracket(s: seq<byte>, k: nat, q: bool)
    requires k <= |s|
    ensures var j := TagEnd(s, k, q); Inert(s[k..j], q) && (j < |s| ==> !QuotedAfter(s[k..j], q))
    decreases |s| - k
  {
    var j := TagEnd(s, k, q);
    if k < |s| && (q || (s[k] != GT && s[k] != LT)) {
      TagEndFirstBracket(s, k + 1, Toggle(s[k], q));
      assert s[k..j][0] == s[k] && s[k..j][1..] == s[k + 1..j];
    }
  }

  /** Scanning a tag skips over an inert stretch and arrives in the quoted state it leaves. */
  lemma {:induction false} TagEndAcross(s: seq<byte>, k: nat, t: seq<byte>, q: bool)
    requires k + |t| <= |s| && s[k..k + |t|] == t
    requires Inert(t, q)
    ensures TagEnd(s, k, q) == TagEnd(s, k + |t|, QuotedAfter(t, q))
    decreases |t|
  {
    if t != [] {
      assert s[k] == t[0];
      assert s[k + 1..k + |t|] == t[1..];
      TagEndAcross(s, k + 1, t[1..], Toggle(t[0], q));
    }
  }

  /** An inert stretch followed by another is inert, and the quoted state carries over. */
  lemma {:induction false} InertConcat(a: seq<byte>, b: seq<byte>, q: bool)
    requires Inert(a, q) && Inert(b, QuotedAfter(a, q))
    ensures Inert(a + b, q) && QuotedAfter(a + b, q) == QuotedAfter(b, QuotedAfter(a, q))
    decreases |a|
  {
    if a == [] {
      assert a + b == b;
    } else {
      assert (a + b)[0] == a[0] && (a + b)[1..] == a[1..] + b;
      InertConcat(a[1..], b, Toggle(a[0], q));
    }
  }

  /** A double-quoted value without quotes inside is inert, whatever brackets it holds. */
  lemma {:induction false} QuotedValueInert(v: seq<byte>)
    requires forall k :: 0 <= k < |v| ==> v[k] != QUOTE
    ensures Inert([QUOTE] + v + [QUOTE], false)
    ensures !QuotedAfter([QUOTE] + v + [QUOTE], false)
  {
    InsideQuotes(v + [QUOTE]);
    assert ([QUOTE] + v + [QUOTE])[1..] == v + [QUOTE];
  }

  lemma {:induction false} InsideQuotes(w: seq<byte>)
    requires w != [] && w[|w| - 1] == QUOTE
    requires forall k :: 0 <= k < |w| - 1 ==> w[k] != QUOTE
    ensures Inert(w, true) && !QuotedAfter(w, true)
    decreases |w|
  {
    if |w| > 1 {
      InsideQuotes(w[1..]);
    }
  }

  /** Text with no bracket and no double quote is inert and leaves the quotes closed. */
  lemma {:induction false} PlainInert(t: seq<byte>)
    requires forall k :: 0 <= k < |t| ==> t[k] != LT && t[k] != GT && t[k] != QUOTE
    ensures Inert(t, false) && !QuotedAfter(t, false)
    decreases |t|
  {
    if t != [] {
      PlainInert(t[1..]);
    }
  }

  /** An unquoted, unnested tag `<t>` is dropped entirely. */
  lemma TagDropped(t: seq<byte>, b: seq<byte>)
    requires Inert(t, false) && !QuotedAfter(t, false)
    ensures Strip([LT] + t + [GT] + b) == Strip(b)
  {
    var s := [LT] + t + [GT] + b;
    assert s[1..1 + |t|] == t;
    TagEndAcross(s, 1, t, false);
    TagClosed(s, |t| + 1);
    assert s[|t| + 2..] == b;
  }

  /** A second unquoted `<` inside a tag flushes the pending tag text verbatim and restarts there. */
  lemma FalseStartFlushed(t: seq<byte>, b: seq<byte>)
    requires Inert(t, false) && !QuotedAfter(t, false)
    ensures Strip(([LT] + t) + ([LT] + b)) == ([LT] + t) + Strip([LT] + b)
  {
    var head, rest := [LT] + t, [LT] + b;
    var s := head + rest;
    assert s[1..1 + |t|] == t;
    assert s[|t| + 1] == LT;
    TagEndAcross(s, 1, t, false);
    TagRestarted(s, |t| + 1);
    assert s[..|t| + 1] == head;
    assert s[|t| + 1..] == rest;
  }

  /** A tag still open at the end of input is written out verbatim. */
  lemma UnterminatedFlushed(t: seq<byte>)
    requires Inert(t, false)
    ensures Strip([LT] + t) == [LT] + t
  {
    var s := [LT] + t;
    assert s[1..1 + |t|] == t;
    TagEndAcross(s, 1, t, false);
    TagUnterminated(s, QuotedAfter(t, false));
  }

  /** `a` is a subsequence of `b`: it can be obtained by deleting bytes of `b`. */
  predicate IsSubsequence<T(==)>(a: seq<T>, b: seq<T>)
    decreases |b|
  {
    a == [] || (b != [] && ((a[0] == b[0] && IsSubsequence(a[1..], b[1..])) || IsSubsequence(a, b[1..])))
  }

  lemma {:induction false} SubsequenceSkip<T>(x: seq<T>, p: seq<T>, y: seq<T>)
    requires IsSubsequence(x, y)
    ensures IsSubsequence(x, p + y)
    decreases |p|
  {
    if p == [] {
      assert p + y == y;
    } else if x != [] {
      assert (p + y)[1..] == p[1..] + y;
      SubsequenceSkip(x, p[1..], y);
    }
  }

  lemma {:induction false} SubsequenceKeep<T>(p: seq<T>, x: seq<T>, y: seq<T>)
    requires IsSubsequence(x, y)
    ensures IsSubsequence(p + x, p + y)
    decreases |p|
  {
    if p == [] {
      assert p + x == x && p + y == y;
    } else {
      assert (p + x)[0] == p[0] == (p + y)[0];
      assert (p + x)[1..] == p[1..] + x;
      assert (p + y)[1..] == p[1..] + y;
      SubsequenceKeep(p[1..], x, y);
    }
  }

  lemma {:induction false} SubsequenceShorter<T>(a: seq<T>, b: seq<T>)
    requires IsSubsequence(a, b)
    ensures |a| <= |b|
    decreases |b|
  {
    if a != [] {
      if a[0] == b[0] && IsSubsequence(a[1..], b[1..]) {
        SubsequenceShorter(a[1..], b[1..]);
      } else {
        SubsequenceShorter(a, b[1..]);
      }
    }
  }

  /** The stripper only ever writes bytes of its input, in order. */
  lemma {:induction false} StripIsSubsequence(s: seq<byte>)
    ensures IsSubsequence(Strip(s), s)
    decreases |s|
  {
    if s == [] {
    } else if s[0] != LT {
      StripIsSubsequence(s[1..]);
      SubsequenceKeep([s[0]], Strip(s[1..]), s[1..]);
      assert [s[0]] + s[1..] == s;
    } else {
      var j := TagEnd(s, 1, false);
      if j == |s| {
        SubsequenceKeep(s, [], []);
        assert s + [] == s;
      } else if s[j] == GT {
        StripIsSubsequence(s[j + 1..]);
        SubsequenceSkip(Strip(s[j + 1..]), s[..j + 1], s[j + 1..]);
        assert s[..j + 1] + s[j + 1..] == s;
      } else {
        StripIsSubsequence(s[j..]);
        SubsequenceKeep(s[..j], Strip(s[j..]), s[j..]);
        assert s[..j] + s[j..] == s;
      }
    }
  }

  /**
    Bare angle brackets separated by text are taken for a tag: "a < b > c"
    strips to "a  c".
  */
  lemma BareBracketsExample(s: seq<byte>)
    requires s == [0x61, 0x20, 0x3C, 0x20, 0x62, 0x20, 0x3E, 0x20, 0x63]
    ensures Strip(s) == [0x61, 0x20, 0x20, 0x63]
  {
    var a: seq<byte> := [0x61, 0x20];
    var t: seq<byte> := [0x20, 0x62, 0x20];
    var b: seq<byte> := [0x20, 0x63];
    assert s == a + ([LT] + t + [GT] + b);
    PlainInert(t);
    TagBetweenText(a, t, b);
  }

  /** A tag between two runs of plain text disappears and the text on both sides is kept. */
  lemma TagBetweenText(a: seq<byte>, t: seq<byte>, b: seq<byte>)
    requires forall k :: 0 <= k < |a| ==> a[k] != LT
    requires forall k :: 0 <= k < |b| ==> b[k] != LT
    requires Inert(t, false) && !QuotedAfter(t, false)
    ensures Strip(a + ([LT] + t + [GT] + b)) == a + b
  {
    var rest := [LT] + t + [GT] + b;
    assert Strip(a + rest) == a + Strip(rest) by { PlainPrefix(a, rest); }
    assert Strip(rest) == Strip(b) by { TagDropped(t, b); }
    assert Strip(b) == b by { NoTagUnchanged(b); }
  }

  /** A `>` inside a quoted attribute value does not close the tag: `<a t=">">x` strips to "x". */
  lemma QuotedBracketExample(s: seq<byte>)
    requires s == [0x3C, 0x61, 0x20, 0x74, 0x3D, 0x22, 0x3E, 0x22, 0x3E, 0x78]
    ensures Strip(s) == [0x78]
  {
    var u: seq<byte> := [0x61, 0x20, 0x74, 0x3D];
    var v: seq<byte> := [0x3E];
    PlainInert(u);
    QuotedValueInert(v);
    InertConcat(u, [QUOTE] + v + [QUOTE], false);
    var t := u + ([QUOTE] + v + [QUOTE]);
    assert s == [LT] + t + [GT] + [0x78];
    TagDropped(t, [0x78]);
    NoTagUnchanged([0x78]);
  }
}
