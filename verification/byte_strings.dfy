/** Byte strings, the representation of Go's `string` and `[]byte` in this model.
    A Go string is an immutable sequence of bytes, so `[]byte(s)` and `string(b)`
    are the identity here. Also the newline- and semicolon-separated layouts the
    signer produces: `Join` and its inverse `Split` (Go's `strings.Split`). */
module ByteStrings {

  newtype byte = b: int | 0 <= b < 256

  type Bytes = seq<byte>

  /** The byte of a source literal character. Every literal of the signer and the
      API client is ASCII, where the character code is the UTF-8 byte. */
  function AsciiByte(c: char): byte {
    (c as int % 256) as byte
  }

  function Ascii(s: string): (r: Bytes)
    ensures |r| == |s|
    ensures forall i :: 0 <= i < |s| ==> r[i] == AsciiByte(s[i])
  {
    seq(|s|, i requires 0 <= i < |s| => AsciiByte(s[i]))
  }

  lemma AsciiAppend(a: string, b: string)
    ensures Ascii(a + b) == Ascii(a) + Ascii(b)
  {
  }

  /** Byte-wise lexicographic order, the order of Go's string comparison. */
  predicate Less(a: Bytes, b: Bytes)
  {
    |b| > 0 && (|a| == 0 || a[0] < b[0] || (a[0] == b[0] && Less(a[1..], b[1..])))
  }

  /** `a` sorts before `b` when they agree up to index `k` and `a` has the smaller
      byte there. */
  lemma {:induction false} LessAt(a: Bytes, b: Bytes, k: nat)
    requires k < |a| && k < |b| && a[..k] == b[..k] && a[k] < b[k]
    ensures Less(a, b)
  {
    if k > 0 {
      assert a[0] == a[..k][0] == b[..k][0] == b[0];
      assert a[1..][..k - 1] == a[..k][1..] == b[..k][1..] == b[1..][..k - 1];
      LessAt(a[1..], b[1..], k - 1);
    }
  }

  const Newline: byte := 10
  const Colon: byte := 58
  const Semicolon: byte := 59
  const Slash: byte := 47

  /** Index of the first occurrence of `x` in `s`. */
  function IndexOf(s: Bytes, x: byte): (i: nat)
    requires x in s
    ensures i < |s| && s[i] == x
    ensures x !in s[..i]
  {
    if s[0] == x then 0 else 1 + IndexOf(s[1..], x)
  }

  /** `strings.Join(parts, sep)` for a one-byte separator. */
  function Join(parts: seq<Bytes>, sep: byte): Bytes
  {
    if |parts| == 0 then []
    else if |parts| == 1 then parts[0]
    else parts[0] + [sep] + Join(parts[1..], sep)
  }

  /** `strings.Split(s, sep)` for a one-byte separator: the pieces between the
      separators, always at least one. */
  function Split(s: Bytes, sep: byte): (parts: seq<Bytes>)
    ensures |parts| >= 1
    decreases |s|
  {
    if sep !in s then [s]
    else
      var i := IndexOf(s, sep);
      [s[..i]] + Split(s[i + 1..], sep)
  }

  predicate NoneContains(parts: seq<Bytes>, sep: byte) {
    forall k :: 0 <= k < |parts| ==> sep !in parts[k]
  }

  lemma {:induction false} IndexOfFirst(a: Bytes, b: Bytes, sep: byte)
    requires sep !in a
    ensures IndexOf(a + [sep] + b, sep) == |a|
  {
    if |a| > 0 {
      IndexOfFirst(a[1..], b, sep);
      assert (a + [sep] + b)[1..] == a[1..] + [sep] + b;
    }
  }

  lemma SplitCons(a: Bytes, b: Bytes, sep: byte)
    requires sep !in a
    ensures Split(a + [sep] + b, sep) == [a] + Split(b, sep)
  {
    var s := a + [sep] + b;
    assert s[|a|] == sep;
    IndexOfFirst(a, b, sep);
    assert s[..|a|] == a;
    assert s[|a| + 1..] == b;
  }

  /** Splitting a join gives back the parts, when no part holds the separator. */
  lemma {:induction false} SplitJoin(parts: seq<Bytes>, sep: byte)
    requires |parts| >= 1
    requires NoneContains(parts, sep)
    ensures Split(Join(parts, sep), sep) == parts
  {
    if |parts| == 1 {
      assert sep !in parts[0];
    } else {
      SplitJoin(parts[1..], sep);
      assert sep !in parts[0];
      SplitCons(parts[0], Join(parts[1..], sep), sep);
      assert [parts[0]] + parts[1..] == parts;
    }
  }

  /** Joining a split gives back the string: no byte is lost or added. */
  lemma {:induction false} JoinSplit(s: Bytes, sep: byte)
    ensures Join(Split(s, sep), sep) == s
    ensures NoneContains(Split(s, sep), sep)
    decreases |s|
  {
    if sep in s {
      var i := IndexOf(s, sep);
      var rest := Split(s[i + 1..], sep);
      JoinSplit(s[i + 1..], sep);
      assert Split(s, sep) == [s[..i]] + rest;
      assert ([s[..i]] + rest)[1..] == rest;
      assert s == s[..i] + [sep] + s[i + 1..];
    }
  }

  /** A join holds a byte only if a part or the separator does. */
  lemma {:induction false} JoinAvoids(parts: seq<Bytes>, sep: byte, b: byte)
    requires NoneContains(parts, b) && sep != b
    ensures b !in Join(parts, sep)
  {
    if |parts| > 1 {
      assert NoneContains(parts[1..], b) by {
        forall k | 0 <= k < |parts| - 1 ensures b !in parts[1..][k] {
          assert parts[1..][k] == parts[k + 1];
        }
      }
      JoinAvoids(parts[1..], sep, b);
      assert b !in parts[0];
    } else if |parts| == 1 {
      assert b !in parts[0];
    }
  }

  lemma JoinCons(x: Bytes, rest: seq<Bytes>, sep: byte)
    requires |rest| >= 1
    ensures Join([x] + rest, sep) == x + [sep] + Join(rest, sep)
  {
    assert ([x] + rest)[1..] == rest;
  }

  lemma NoneContains4(a: Bytes, b: Bytes, c: Bytes, d: Bytes, sep: byte)
    requires sep !in a && sep !in b && sep !in c && sep !in d
    ensures NoneContains([a, b, c, d], sep)
  {
  }

  /** A join of four parts, written out. */
  lemma Join4(a: Bytes, b: Bytes, c: Bytes, d: Bytes, sep: byte)
    ensures Join([a, b, c, d], sep) == a + [sep] + b + [sep] + c + [sep] + d
  {
    JoinCons(c, [d], sep);
    assert [c] + [d] == [c, d];
    JoinCons(b, [c, d], sep);
    assert [b] + [c, d] == [b, c, d];
    JoinCons(a, [b, c, d], sep);
    assert [a] + [b, c, d] == [a, b, c, d];
  }

  /** A join of five parts, written out. */
  lemma Join5(a: Bytes, b: Bytes, c: Bytes, d: Bytes, e: Bytes, sep: byte)
    ensures Join([a, b, c, d, e], sep) == a + [sep] + b + [sep] + c + [sep] + d + [sep] + e
  {
    JoinCons(d, [e], sep);
    assert [d] + [e] == [d, e];
    JoinCons(c, [d, e], sep);
    assert [c] + [d, e] == [c, d, e];
    JoinCons(b, [c, d, e], sep);
    assert [b] + [c, d, e] == [b, c, d, e];
    JoinCons(a, [b, c, d, e], sep);
    assert [a] + [b, c, d, e] == [a, b, c, d, e];
  }

  /** Joining two non-empty lists puts one separator between their joins. */
  lemma {:induction false} JoinAppend(xs: seq<Bytes>, ys: seq<Bytes>, sep: byte)
    requires |xs| >= 1 && |ys| >= 1
    ensures Join(xs + ys, sep) == Join(xs, sep) + [sep] + Join(ys, sep)
  {
    if |xs| == 1 {
      JoinCons(xs[0], ys, sep);
      assert xs + ys == [xs[0]] + ys;
    } else {
      JoinAppend(xs[1..], ys, sep);
      assert xs + ys == [xs[0]] + (xs[1..] + ys);
      JoinCons(xs[0], xs[1..] + ys, sep);
      JoinCons(xs[0], xs[1..], sep);
      assert [xs[0]] + xs[1..] == xs;
    }
  }

  /** A joined group inside a join flattens into it: a multi-line block placed on
      one line of a newline-joined text contributes its own lines. */
  lemma JoinFlatten(pre: seq<Bytes>, mid: seq<Bytes>, post: seq<Bytes>, sep: byte)
    requires |mid| >= 1
    ensures Join(pre + [Join(mid, sep)] + post, sep) == Join(pre + mid + post, sep)
  {
    var g := [Join(mid, sep)];
    assert Join(g, sep) == Join(mid, sep);
    var tailG := g + post;
    var tailM := mid + post;
    assert Join(tailG, sep) == Join(tailM, sep) by {
      if |post| > 0 {
        JoinAppend(g, post, sep);
        JoinAppend(mid, post, sep);
      } else {
        assert tailG == g;
        assert tailM == mid;
      }
    }
    assert pre + g + post == pre + tailG;
    assert pre + mid + post == pre + tailM;
    if |pre| > 0 {
      JoinAppend(pre, tailG, sep);
      JoinAppend(pre, tailM, sep);
    } else {
      assert pre + tailG == tailG;
      assert pre + tailM == tailM;
    }
  }
  /** Splitting at a separator splits the text on either side of it on its own:
      the pieces of `a` come first, then those of `b`, whatever `a` holds. */
  lemma {:induction false} SplitAppend(a: Bytes, b: Bytes, sep: byte)
    ensures Split(a + [sep] + b, sep) == Split(a, sep) + Split(b, sep)
    decreases |a|
  {
    if sep in a {
      var i := IndexOf(a, sep);
      SplitAppend(a[i + 1..], b, sep);
      assert a == a[..i] + [sep] + a[i + 1..];
      SplitAppendStep(a[..i], a[i + 1..], b, sep);
    } else {
      SplitCons(a, b, sep);
    }
  }

  lemma SplitAppendStep(a1: Bytes, a2: Bytes, b: Bytes, sep: byte)
    requires sep !in a1
    requires Split(a2 + [sep] + b, sep) == Split(a2, sep) + Split(b, sep)
    ensures Split(a1 + [sep] + a2 + [sep] + b, sep) == Split(a1 + [sep] + a2, sep) + Split(b, sep)
  {
    var rest := a2 + [sep] + b;
    SplitCons(a1, a2, sep);
    Assoc(a1 + [sep], a2 + [sep], b);
    Assoc(a1 + [sep], a2, [sep]);
    SplitCons(a1, rest, sep);
    Assoc([a1], Split(a2, sep), Split(b, sep));
  }

  lemma Assoc<T>(x: seq<T>, y: seq<T>, z: seq<T>)
    ensures x + (y + z) == x + y + z
  {
  }

  lemma SplitJoinAt(parts: seq<Bytes>, k: nat, sep: byte)
    requires 1 <= k < |parts|
    ensures Split(Join(parts, sep), sep) == Split(Join(parts[..k], sep), sep) + Split(Join(parts[k..], sep), sep)
  {
    assert parts[..k] + parts[k..] == parts;
    JoinAppend(parts[..k], parts[k..], sep);
    SplitAppend(Join(parts[..k], sep), Join(parts[k..], sep), sep);
  }

  /** The first `k` parts of a join come back as its first `k` pieces when none
      of them holds the separator, whatever the later parts hold. */
  lemma SplitJoinHead(parts: seq<Bytes>, k: nat, sep: byte)
    requires 1 <= k < |parts|
    requires NoneContains(parts[..k], sep)
    ensures var pieces := Split(Join(parts, sep), sep);
      |pieces| > k && pieces[..k] == parts[..k]
  {
    SplitJoinAt(parts, k, sep);
    SplitJoin(parts[..k], sep);
  }

  /** The parts from `k` on come back as the last pieces of a join when none of
      them holds the separator, whatever the earlier parts hold. */
  lemma SplitJoinTail(parts: seq<Bytes>, k: nat, sep: byte)
    requires 1 <= k < |parts|
    requires NoneContains(parts[k..], sep)
    ensures var pieces := Split(Join(parts, sep), sep);
      |pieces| > |parts| - k && pieces[|pieces| - (|parts| - k)..] == parts[k..]
  {
    SplitJoinAt(parts, k, sep);
    SplitJoin(parts[k..], sep);
  }

  /** A part without the separator is one of the pieces of the join, whatever
      the other parts hold. */
  lemma SplitJoinHasPart(parts: seq<Bytes>, k: nat, sep: byte)
    requires k < |parts| && sep !in parts[k]
    ensures parts[k] in Split(Join(parts, sep), sep)
  {
    var rest := parts[k..];
    assert Split(Join(rest, sep), sep)[0] == parts[k] by {
      if |rest| == 1 {
        assert Join(rest, sep) == parts[k];
      } else {
        assert [rest[0]] + rest[1..] == rest;
        JoinCons(rest[0], rest[1..], sep);
        SplitCons(rest[0], Join(rest[1..], sep), sep);
      }
    }
    if k > 0 {
      SplitJoinAt(parts, k, sep);
      assert Split(Join(parts, sep), sep)[|Split(Join(parts[..k], sep), sep)|] == parts[k];
    } else {
      assert rest == parts;
    }
  }
}
