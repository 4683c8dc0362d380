/**
 * The three string operations of the JavaScript runtime that the request
 * handler is built from, over `string` (= `seq<char>`):
 *
 *  - `String.prototype.split` with a one-character separator,
 *  - `Array.prototype.filter(part => part !== "")`,
 *  - `Array.prototype.join` with a one-character separator,
 *
 * together with the facts about them the handler relies on: splitting always
 * yields at least one piece, split and join are inverse to each other, and a
 * split on `/` followed by dropping empty pieces does not notice doubled,
 * leading or trailing slashes.
 */
module Text {

  /** Number of occurrences of `c` in `s`. */
  function Count(s: string, c: char): nat
  {
    if s == [] then 0 else (if s[0] == c then 1 else 0) + Count(s[1..], c)
  }

  /**
   * `s.split(sep)`: the pieces between consecutive separators. As in
   * JavaScript, the empty string splits to `[""]` and a separator at either
   * end yields an empty piece there.
   */
  function Split(s: string, sep: char): (parts: seq<string>)
    ensures |parts| == Count(s, sep) + 1
    ensures forall i :: 0 <= i < |parts| ==> sep !in parts[i]
    decreases |s|
  {
    if s == [] then [""]
    else
      var rest := Split(s[1..], sep);
      if s[0] == sep then [""] + rest
      else [[s[0]] + rest[0]] + rest[1..]
  }

  /**
   * `parts.join(sep)`: the pieces with one separator between neighbours.
   * Joining separator-free pieces puts exactly one separator between each
   * pair of neighbours and none anywhere else.
   */
  function Join(parts: seq<string>, sep: char): (s: string)
    ensures |parts| >= 1 && SeparatorFree(parts, sep) ==> Count(s, sep) == |parts| - 1
  {
    if |parts| == 0 then ""
    else if |parts| == 1 then
      CountAbsent(parts[0], sep);
      parts[0]
    else
      var rest := Join(parts[1..], sep);
      assert SeparatorFree(parts, sep) ==> SeparatorFree(parts[1..], sep) by {
        if SeparatorFree(parts, sep) {
          forall i | 0 <= i < |parts[1..]| ensures sep !in parts[1..][i] {
            assert parts[1..][i] == parts[i + 1];
          }
        }
      }
      CountAbsent(parts[0], sep);
      CountAppend(parts[0], [sep], sep);
      CountAppend(parts[0] + [sep], rest, sep);
      assert Count([sep], sep) == 1 by { assert [sep][1..] == []; }
      parts[0] + [sep] + rest
  }

  /** A string without `c` has no occurrence of it. */
  lemma {:induction false} CountAbsent(s: string, c: char)
    ensures c !in s ==> Count(s, c) == 0
    decreases |s|
  {
    if s != [] && c !in s {
      assert forall x :: x in s[1..] ==> x in s;
      CountAbsent(s[1..], c);
    }
  }

  /** Occurrences add up over concatenation. */
  lemma {:induction false} CountAppend(a: string, b: string, c: char)
    ensures Count(a + b, c) == Count(a, c) + Count(b, c)
    decreases |a|
  {
    if a == [] {
      assert a + b == b;
    } else {
      assert (a + b)[0] == a[0] && (a + b)[1..] == a[1..] + b;
      CountAppend(a[1..], b, c);
    }
  }

  /** `parts.filter(part => part !== "")`: the non-empty pieces, in order. */
  function NonEmpty(parts: seq<string>): (kept: seq<string>)
    ensures |kept| <= |parts|
    ensures forall i :: 0 <= i < |kept| ==> kept[i] != ""
    ensures forall p :: p in kept <==> p in parts && p != ""
  {
    if parts == [] then []
    else if parts[0] == "" then NonEmpty(parts[1..])
    else [parts[0]] + NonEmpty(parts[1..])
  }

  /** `path.split("/").filter(part => part !== "")`. */
  function Segments(path: string): (segs: seq<string>)
    ensures forall i :: 0 <= i < |segs| ==> segs[i] != "" && '/' !in segs[i]
  {
    var parts := Split(path, '/');
    var kept := NonEmpty(parts);
    assert forall i :: 0 <= i < |kept| ==> kept[i] in parts;
    kept
  }

  /** A sequence that a split on `sep` could have produced: no piece holds `sep`. */
  predicate SeparatorFree(parts: seq<string>, sep: char)
  {
    forall i :: 0 <= i < |parts| ==> sep !in parts[i]
  }

  /** A sequence that `Segments` could have produced. */
  predicate PathSegments(segs: seq<string>)
  {
    forall i :: 0 <= i < |segs| ==> segs[i] != "" && '/' !in segs[i]
  }

  /** Joining a split gives back the string that was split. */
  lemma {:induction false} JoinSplit(s: string, sep: char)
    ensures Join(Split(s, sep), sep) == s
    decreases |s|
  {
    if s != [] {
      var rest := Split(s[1..], sep);
      JoinSplit(s[1..], sep);
      if s[0] == sep {
        assert Split(s, sep) == [""] + rest;
        assert Join([""] + rest, sep) == [sep] + Join(rest, sep);
        assert s == [s[0]] + s[1..];
      } else {
        JoinConsChar(s[0], rest, sep);
        assert s == [s[0]] + s[1..];
      }
    }
  }

  /** Prepending a character to the first piece prepends it to the join. */
  lemma JoinConsChar(c: char, parts: seq<string>, sep: char)
    requires |parts| >= 1
    ensures Join([[c] + parts[0]] + parts[1..], sep) == [c] + Join(parts, sep)
  {
  }

  /** Splitting a join of separator-free pieces gives back the pieces. */
  lemma {:induction false} SplitJoin(parts: seq<string>, sep: char)
    requires |parts| >= 1
    requires SeparatorFree(parts, sep)
    ensures Split(Join(parts, sep), sep) == parts
    decreases |parts|
  {
    if |parts| == 1 {
      SplitWithoutSeparator(parts[0], sep);
    } else {
      SplitWithoutSeparator(parts[0], sep);
      SplitJoin(parts[1..], sep);
      SplitAppend(parts[0], Join(parts[1..], sep), sep);
      assert [parts[0]] + parts[1..] == parts;
    }
  }

  /** A string without the separator splits to itself alone. */
  lemma {:induction false} SplitWithoutSeparator(s: string, sep: char)
    requires sep !in s
    ensures Split(s, sep) == [s]
    decreases |s|
  {
    if s != [] {
      assert sep !in s[1..] by {
        forall i | 0 <= i < |s[1..]| ensures s[1..][i] != sep {
          assert s[1..][i] == s[i + 1];
        }
      }
      SplitWithoutSeparator(s[1..], sep);
      assert s == [s[0]] + s[1..];
    }
  }

  /** Split turns one separator into a boundary between two pieces. */
  lemma {:induction false} SplitAppend(a: string, b: string, sep: char)
    ensures Split(a + [sep] + b, sep) == Split(a, sep) + Split(b, sep)
    decreases |a|
  {
    var s := a + [sep] + b;
    if a == [] {
      assert s[1..] == b;
    } else {
      assert s[1..] == a[1..] + [sep] + b;
      SplitAppend(a[1..], b, sep);
      var ra, rb := Split(a[1..], sep), Split(b, sep);
      if a[0] != sep {
        assert (ra + rb)[1..] == ra[1..] + rb;
      }
    }
  }

  /** Filtering distributes over concatenation. */
  lemma {:induction false} NonEmptyAppend(x: seq<string>, y: seq<string>)
    ensures NonEmpty(x + y) == NonEmpty(x) + NonEmpty(y)
    decreases |x|
  {
    if x == [] {
      assert x + y == y;
    } else {
      assert (x + y)[0] == x[0] && (x + y)[1..] == x[1..] + y;
      NonEmptyAppend(x[1..], y);
      if x[0] != "" {
        calc {
          NonEmpty(x + y);
          [x[0]] + NonEmpty(x[1..] + y);
          [x[0]] + (NonEmpty(x[1..]) + NonEmpty(y));
          ([x[0]] + NonEmpty(x[1..])) + NonEmpty(y);
          NonEmpty(x) + NonEmpty(y);
        }
      }
    }
  }

  /** The segments of `a/b` are those of `a` followed by those of `b`. */
  lemma SegmentsAppend(a: string, b: string)
    ensures Segments(a + "/" + b) == Segments(a) + Segments(b)
  {
    SplitAppend(a, b, '/');
    NonEmptyAppend(Split(a, '/'), Split(b, '/'));
  }

  /** A doubled slash, anywhere in the path, yields the same segments as a single one. */
  lemma SegmentsIgnoreDoubledSlash(a: string, b: string)
    ensures Segments(a + "//" + b) == Segments(a + "/" + b)
  {
    assert a + "//" + b == a + "/" + ("/" + b);
    SegmentsAppend(a, "/" + b);
    SegmentsAppend("", b);
    SegmentsAppend(a, b);
    assert "" + "/" + b == "/" + b;
  }

  /** A leading or a trailing slash does not change the segments. */
  lemma SegmentsIgnoreOuterSlash(p: string)
    ensures Segments("/" + p) == Segments(p)
    ensures Segments(p + "/") == Segments(p)
  {
    SegmentsAppend("", p);
    assert "" + "/" + p == "/" + p;
    SegmentsAppend(p, "");
    assert p + "/" + "" == p + "/";
  }

  /** Path segments joined with `/` split back into the same segments. */
  lemma SegmentsJoin(segs: seq<string>)
    requires PathSegments(segs)
    ensures Segments(Join(segs, '/')) == segs
  {
    if segs == [] {
      assert Split("", '/') == [""];
    } else {
      SplitJoin(segs, '/');
      NonEmptyKeepsNonEmpty(segs);
    }
  }

  /** Filtering a sequence with no empty piece changes nothing. */
  lemma {:induction false} NonEmptyKeepsNonEmpty(parts: seq<string>)
    requires forall i :: 0 <= i < |parts| ==> parts[i] != ""
    ensures NonEmpty(parts) == parts
    decreases |parts|
  {
    if parts != [] {
      NonEmptyKeepsNonEmpty(parts[1..]);
    }
  }
}
