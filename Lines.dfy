/**
 * `String.prototype.split` with a one-character separator, as the client
 * uses it twice: on `'\n'` to cut the event stream into lines and on `','`
 * to cut a data URL into header and payload.
 */
module Lines {

  /** Each of `lines` followed by `sep`, in order: the text the complete lines came from. */
  function Terminated(lines: seq<string>, sep: char): string {
    if lines == [] then "" else lines[0] + [sep] + Terminated(lines[1..], sep)
  }

  /** The images of `xs` under `f`, concatenated in order. */
  function Flatten<T>(xs: seq<T>, f: T -> string): string {
    if xs == [] then "" else Flatten(xs[..|xs| - 1], f) + f(xs[|xs| - 1])
  }

  lemma {:induction false} FlattenConcat<T>(a: seq<T>, b: seq<T>, f: T -> string)
    ensures Flatten(a + b, f) == Flatten(a, f) + Flatten(b, f)
    decreases |b|
  {
    if b == [] {
      assert a + b == a;
    } else {
      var c := b[..|b| - 1];
      assert (a + b)[..|a + b| - 1] == a + c && (a + b)[|a + b| - 1] == b[|b| - 1];
      FlattenConcat(a, c, f);
    }
  }

  predicate AllFree(lines: seq<string>, sep: char) {
    forall k :: 0 <= k < |lines| ==> sep !in lines[k]
  }

  lemma AllFreeSnoc(lines: seq<string>, line: string, sep: char)
    requires AllFree(lines, sep) && sep !in line
    ensures AllFree(lines + [line], sep)
  {
    forall k | 0 <= k < |lines + [line]| ensures sep !in (lines + [line])[k] {
      if k < |lines| {
        assert (lines + [line])[k] == lines[k];
      }
    }
  }

  /** `s.split(sep)`: the maximal `sep`-free segments of `s`, at least one. */
  function Split(s: string, sep: char): (parts: seq<string>)
    ensures |parts| >= 1
    decreases |s|
  {
    if |s| == 0 then [""]
    else
      var rest := Split(s[1..], sep);
      if s[0] == sep then [""] + rest
      else [[s[0]] + rest[0]] + rest[1..]
  }

  /** All segments but the last, each of which was followed by `sep`. */
  function Complete(parts: seq<string>): seq<string>
    requires |parts| >= 1
  {
    parts[..|parts| - 1]
  }

  function Last(parts: seq<string>): string
    requires |parts| >= 1
  {
    parts[|parts| - 1]
  }

  lemma TerminatedConcat(a: seq<string>, b: seq<string>, sep: char)
    ensures Terminated(a + b, sep) == Terminated(a, sep) + Terminated(b, sep)
  {
    if a == [] {
      assert a + b == b;
    } else {
      assert (a + b)[1..] == a[1..] + b;
      TerminatedConcat(a[1..], b, sep);
    }
  }

  /** The segments are `sep`-free, and the complete ones, each followed by `sep`, then the last one, spell `s`. */
  lemma {:induction false} SplitSpec(s: string, sep: char)
    ensures AllFree(Split(s, sep), sep)
    ensures Terminated(Complete(Split(s, sep)), sep) + Last(Split(s, sep)) == s
    decreases |s|
  {
    if |s| > 0 {
      var rest := Split(s[1..], sep);
      SplitSpec(s[1..], sep);
      assert s == [s[0]] + s[1..];
      if s[0] == sep {
        SeparatorFirst(rest, s[1..], sep);
      } else {
        CharacterFirst(s[0], rest, s[1..], sep);
      }
    }
  }

  /** A leading `sep` adds an empty complete segment in front. */
  lemma SeparatorFirst(rest: seq<string>, t: string, sep: char)
    requires |rest| >= 1 && AllFree(rest, sep)
    requires Terminated(Complete(rest), sep) + Last(rest) == t
    ensures var parts := [""] + rest;
      AllFree(parts, sep) && Terminated(Complete(parts), sep) + Last(parts) == [sep] + t
  {
    var parts := [""] + rest;
    assert Complete(parts) == [""] + Complete(rest);
    assert Terminated(Complete(parts), sep) == [sep] + Terminated(Complete(rest), sep);
    forall k | 0 <= k < |parts| ensures sep !in parts[k] {
      if k > 0 {
        assert parts[k] == rest[k - 1];
      }
    }
  }

  /** A leading character other than `sep` joins the first segment. */
  lemma CharacterFirst(c: char, rest: seq<string>, t: string, sep: char)
    requires c != sep && |rest| >= 1 && AllFree(rest, sep)
    requires Terminated(Complete(rest), sep) + Last(rest) == t
    ensures var parts := [[c] + rest[0]] + rest[1..];
      AllFree(parts, sep) && Terminated(Complete(parts), sep) + Last(parts) == [c] + t
  {
    var parts := [[c] + rest[0]] + rest[1..];
    if |rest| == 1 {
      assert Complete(rest) == [] && Complete(parts) == [];
    } else {
      assert Complete(parts) == [[c] + rest[0]] + Complete(rest)[1..];
      assert Complete(rest) == [rest[0]] + Complete(rest)[1..];
    }
    forall k | 0 <= k < |parts| ensures sep !in parts[k] {
      if k == 0 {
        assert sep !in rest[0];
      } else {
        assert parts[k] == rest[k];
      }
    }
  }

  /** A `sep`-free segment followed by `sep` becomes the first part of the split. */
  lemma {:induction false} SplitSegment(x: string, t: string, sep: char)
    requires sep !in x
    ensures Split(x + [sep] + t, sep) == [x] + Split(t, sep)
    decreases |x|
  {
    if x == [] {
      assert x + [sep] + t == [sep] + t;
      assert ([sep] + t)[1..] == t;
    } else {
      assert (x + [sep] + t)[1..] == x[1..] + [sep] + t;
      SplitSegment(x[1..], t, sep);
      assert [x[0]] + x[1..] == x;
    }
  }

  /** The first part of a split is everything before the first `sep`. */
  lemma SplitAtFirst(s: string, sep: char)
    requires sep in s
    ensures var i := IndexOf(s, sep); Split(s, sep) == [s[..i]] + Split(s[i + 1..], sep)
  {
    var i := IndexOf(s, sep);
    assert s == s[..i] + [sep] + s[i + 1..];
    SplitSegment(s[..i], s[i + 1..], sep);
  }

  /** The first part of a split runs up to the first `sep`, or to the end when there is none. */
  lemma SplitFirstPart(s: string, sep: char)
    ensures Split(s, sep)[0] == s[..IndexOf(s, sep)]
  {
    if sep in s {
      SplitAtFirst(s, sep);
    } else {
      SplitFree(s, sep);
      assert s[..|s|] == s;
    }
  }

  /** A `sep`-free string splits into itself alone. */
  lemma {:induction false} SplitFree(x: string, sep: char)
    requires sep !in x
    ensures Split(x, sep) == [x]
    decreases |x|
  {
    if x != [] {
      SplitFree(x[1..], sep);
      assert [x[0]] + x[1..] == x;
    }
  }

  /**
   * Splitting undoes `Terminated`: complete `sep`-free lines followed by a
   * `sep`-free rest split into exactly those lines and that rest.
   */
  lemma {:induction false} SplitTerminated(lines: seq<string>, rest: string, sep: char)
    requires AllFree(lines, sep) && sep !in rest
    ensures Split(Terminated(lines, sep) + rest, sep) == lines + [rest]
    decreases |lines|
  {
    if lines == [] {
      assert Terminated(lines, sep) + rest == rest;
      SplitFree(rest, sep);
    } else {
      assert AllFree(lines[1..], sep) by {
        forall k | 0 <= k < |lines[1..]| ensures sep !in lines[1..][k] {
          assert lines[1..][k] == lines[k + 1];
        }
      }
      SplitTerminated(lines[1..], rest, sep);
      assert sep !in lines[0];
      assert Terminated(lines, sep) + rest == lines[0] + [sep] + (Terminated(lines[1..], sep) + rest);
      SplitSegment(lines[0], Terminated(lines[1..], sep) + rest, sep);
      assert lines == [lines[0]] + lines[1..];
    }
  }

  /** `s.indexOf(c)`, with `|s|` standing for "not found". */
  function IndexOf(s: string, c: char): (i: nat)
    ensures i <= |s| && c !in s[..i]
    ensures i < |s| <==> c in s
    ensures i < |s| ==> s[i] == c
    decreases |s|
  {
    if s == [] then 0
    else if s[0] == c then 0
    else
      var j := IndexOf(s[1..], c);
      assert s[..j + 1] == [s[0]] + s[1..][..j];
      j + 1
  }

  /**
   * Carrying a buffer across reads: when `buffer` holds the unterminated
   * rest of the text so far and `chunk` arrives, the complete parts of
   * `buffer + chunk` extend the complete lines, and its last part is the
   * new unterminated rest.
   */
  lemma SplitCarry(done: seq<string>, buffer: string, chunk: string, sep: char)
    requires AllFree(done, sep) && sep !in buffer
    ensures var parts := Split(buffer + chunk, sep);
      && AllFree(done + Complete(parts), sep) && sep !in Last(parts)
      && Terminated(done + Complete(parts), sep) + Last(parts) == Terminated(done, sep) + buffer + chunk
  {
    var parts := Split(buffer + chunk, sep);
    SplitSpec(buffer + chunk, sep);
    TerminatedConcat(done, Complete(parts), sep);
    calc {
      Terminated(done + Complete(parts), sep) + Last(parts);
      Terminated(done, sep) + (Terminated(Complete(parts), sep) + Last(parts));
      Terminated(done, sep) + (buffer + chunk);
    }
    forall k | 0 <= k < |done + Complete(parts)| ensures sep !in (done + Complete(parts))[k] {
      if k >= |done| {
        assert (done + Complete(parts))[k] == parts[k - |done|];
      }
    }
  }

  /** The complete lines of `lines` terminated and followed by a `sep`-free rest are `lines`. */
  lemma CompleteOfTerminated(lines: seq<string>, rest: string, sep: char)
    requires AllFree(lines, sep) && sep !in rest
    ensures Complete(Split(Terminated(lines, sep) + rest, sep)) == lines
  {
    SplitTerminated(lines, rest, sep);
    assert (lines + [rest])[..|lines|] == lines;
  }

  /** Complete lines in front of any text come out of the split first, unchanged. */
  lemma SplitAfterTerminated(lines: seq<string>, text: string, sep: char)
    requires AllFree(lines, sep)
    ensures Split(Terminated(lines, sep) + text, sep) == lines + Split(text, sep)
  {
    var parts := Split(text, sep);
    SplitSpec(text, sep);
    AllFreeConcat(lines, Complete(parts), sep);
    TerminatedRegroup(lines, Complete(parts), Last(parts), text, sep);
    SplitTerminated(lines + Complete(parts), Last(parts), sep);
    Reassemble(lines, parts);
  }

  /** Terminated lines in front of text made of terminated lines and a rest. */
  lemma TerminatedRegroup(lines: seq<string>, more: seq<string>, rest: string, text: string, sep: char)
    requires Terminated(more, sep) + rest == text
    ensures Terminated(lines, sep) + text == Terminated(lines + more, sep) + rest
  {
    TerminatedConcat(lines, more, sep);
    var x, y := Terminated(lines, sep), Terminated(more, sep);
    assert x + (y + rest) == (x + y) + rest;
  }

  lemma AllFreeConcat(a: seq<string>, b: seq<string>, sep: char)
    requires AllFree(a, sep) && AllFree(b, sep)
    ensures AllFree(a + b, sep)
  {
    forall k | 0 <= k < |a + b| ensures sep !in (a + b)[k] {
      if k < |a| {
        assert (a + b)[k] == a[k];
      } else {
        assert (a + b)[k] == b[k - |a|];
      }
    }
  }

  lemma Reassemble(lines: seq<string>, parts: seq<string>)
    requires |parts| >= 1
    ensures lines + Complete(parts) + [Last(parts)] == lines + parts
  {
    assert Complete(parts) + [Last(parts)] == parts;
  }

  /** The decomposition into complete lines and a rest is unique. */
  lemma TerminatedUnique(a: seq<string>, x: string, b: seq<string>, y: string, sep: char)
    requires AllFree(a, sep) && sep !in x && AllFree(b, sep) && sep !in y
    requires Terminated(a, sep) + x == Terminated(b, sep) + y
    ensures a == b && x == y
  {
    SplitTerminated(a, x, sep);
    SplitTerminated(b, y, sep);
    assert a + [x] == b + [y];
    assert a == (a + [x])[..|a|];
    assert |a| == |b|;
    assert b == (b + [y])[..|b|];
    assert x == (a + [x])[|a|];
  }
}
