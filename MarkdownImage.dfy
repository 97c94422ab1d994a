/**
 * The one regular expression the client applies to the assembled content,
 * `/!\[.*?\]\((.*?)\)/` with `String.prototype.match`: the first markdown
 * image link `![alt](url)` and its captured URL.
 *
 * `IsMatchAt` and `IsFirstMatch` say declaratively which substrings the
 * pattern matches and which match a backtracking engine reports: the
 * leftmost start, then the shortest alt text (the first `.*?` is lazy),
 * then the shortest URL (so is the second). `FirstMatch` scans for it the
 * way the engine does, and its contract ties the two together.
 */
module MarkdownImage {
  import opened Wrappers

  /** The characters `.` does not match when the `s` flag is absent. */
  predicate IsLineTerminator(c: char) {
    c == '\n' || c == '\r' || c == '\U{2028}' || c == '\U{2029}'
  }

  /** Every character of `s[lo..hi]` is matched by `.`. */
  predicate Dotted(s: string, lo: nat, hi: nat)
    requires lo <= hi <= |s|
  {
    forall t :: lo <= t < hi ==> !IsLineTerminator(s[t])
  }

  /** The pattern matches `s` from `start` with an alt text of `alt` characters and a URL of `url` characters. */
  predicate IsMatchAt(s: string, start: nat, alt: nat, url: nat) {
    && start + alt + url + 5 <= |s|
    && s[start] == '!' && s[start + 1] == '['
    && Dotted(s, start + 2, start + 2 + alt)
    && s[start + 2 + alt] == ']' && s[start + 3 + alt] == '('
    && Dotted(s, start + 4 + alt, start + 4 + alt + url)
    && s[start + 4 + alt + url] == ')'
  }

  /** A match, given by where it starts and the lengths of its two lazy groups. */
  datatype Match = Match(start: nat, alt: nat, url: nat)

  /** `m` comes first in the engine's order of preference. */
  predicate Precedes(m: Match, start: nat, alt: nat, url: nat) {
    || m.start < start
    || (m.start == start && m.alt < alt)
    || (m.start == start && m.alt == alt && m.url <= url)
  }

  /** `m` is a match, and no match is preferred to it. */
  ghost predicate IsFirstMatch(s: string, m: Match) {
    && IsMatchAt(s, m.start, m.alt, m.url)
    && forall p, a, u :: IsMatchAt(s, p, a, u) ==> Precedes(m, p, a, u)
  }

  /** The URL captured by a match: capture group 1. */
  function Url(s: string, m: Match): (r: string)
    requires IsMatchAt(s, m.start, m.alt, m.url)
    ensures |r| == m.url
  {
    s[m.start + 4 + m.alt .. m.start + 4 + m.alt + m.url]
  }

  /** The URL group opened at `q` can close after `v` characters: they are all matched by `.` and `)` follows. */
  predicate Closes(s: string, q: nat, v: nat) {
    q + v < |s| && Dotted(s, q, q + v) && s[q + v] == ')'
  }

  /**
   * The lazy URL group opened at `q`, having taken `u` characters so far:
   * close it if `)` follows, otherwise take one more character.
   */
  function UrlLength(s: string, q: nat, u: nat): Option<nat>
    requires q + u <= |s|
    decreases |s| - (q + u)
  {
    if q + u == |s| then None
    else if s[q + u] == ')' then Some(u)
    else if IsLineTerminator(s[q + u]) then None
    else UrlLength(s, q, u + 1)
  }

  /** The URL group takes the fewest characters after which it can close, if any. */
  lemma {:induction false} UrlLengthCorrect(s: string, q: nat, u: nat)
    requires q + u <= |s| && Dotted(s, q, q + u)
    ensures UrlLength(s, q, u).Some? ==>
      var v := UrlLength(s, q, u).value;
      u <= v && Closes(s, q, v) && forall w :: u <= w < v ==> !Closes(s, q, w)
    ensures UrlLength(s, q, u).None? ==> forall w :: u <= w ==> !Closes(s, q, w)
    decreases |s| - (q + u)
  {
    if q + u == |s| {
    } else if s[q + u] == ')' {
    } else if IsLineTerminator(s[q + u]) {
      forall w | u <= w ensures !Closes(s, q, w) {
        if u < w && q + w < |s| {
          assert q <= q + u < q + w;
        }
      }
    } else {
      UrlLengthCorrect(s, q, u + 1);
    }
  }

  /**
   * A match starting at `p`, where the lazy alt group has taken `a`
   * characters so far: close it here if `](` and a URL follow, otherwise
   * take one more character.
   */
  function MatchWithAlt(s: string, p: nat, a: nat): Option<Match>
    requires p + 2 + a <= |s|
    decreases |s| - (p + a)
  {
    var i := p + 2 + a;
    var close := if i + 2 <= |s| && s[i] == ']' && s[i + 1] == '(' then UrlLength(s, i + 2, 0) else None;
    if close.Some? then
      Some(Match(p, a, close.value))
    else if i < |s| && !IsLineTerminator(s[i]) then
      MatchWithAlt(s, p, a + 1)
    else
      None
  }

  /** From `p`, the alt group takes the fewest characters for which the rest of the pattern matches. */
  lemma {:induction false} MatchWithAltCorrect(s: string, p: nat, a: nat)
    requires p + 2 + a <= |s| && Dotted(s, p + 2, p + 2 + a)
    requires s[p] == '!' && s[p + 1] == '['
    ensures MatchWithAlt(s, p, a).Some? ==>
      var m := MatchWithAlt(s, p, a).value;
      && m.start == p && a <= m.alt && IsMatchAt(s, p, m.alt, m.url)
      && forall a', u :: a <= a' && IsMatchAt(s, p, a', u) ==> Precedes(m, p, a', u)
    ensures MatchWithAlt(s, p, a).None? ==> forall a', u :: a <= a' ==> !IsMatchAt(s, p, a', u)
    decreases |s| - (p + a)
  {
    var i := p + 2 + a;
    var brackets := i + 2 <= |s| && s[i] == ']' && s[i + 1] == '(';
    if brackets {
      UrlLengthCorrect(s, i + 2, 0);
    }
    // No match keeps exactly `a` characters of alt text unless the URL group closes.
    assert brackets && UrlLength(s, i + 2, 0).Some? ==> IsMatchAt(s, p, a, UrlLength(s, i + 2, 0).value);
    assert !brackets || UrlLength(s, i + 2, 0).None? ==> forall u :: !IsMatchAt(s, p, a, u) by {
      forall u | IsMatchAt(s, p, a, u) ensures brackets && UrlLength(s, i + 2, 0).Some? {
        assert Closes(s, i + 2, u);
      }
    }
    if brackets && UrlLength(s, i + 2, 0).Some? {
      var m := Match(p, a, UrlLength(s, i + 2, 0).value);
      forall a', u | a <= a' && IsMatchAt(s, p, a', u) ensures Precedes(m, p, a', u) {
        if a' == a {
          assert Closes(s, i + 2, u);
        }
      }
    } else if i < |s| && !IsLineTerminator(s[i]) {
      MatchWithAltCorrect(s, p, a + 1);
    } else {
      forall a', u | a < a' ensures !IsMatchAt(s, p, a', u) {
        if p + a' + u + 5 <= |s| {
          assert p + 2 <= i < p + 2 + a';
        }
      }
    }
  }

  /** The match the engine finds when it tries start positions from `p` on. */
  function FirstMatchFrom(s: string, p: nat): Option<Match>
    requires p <= |s|
    decreases |s| - p
  {
    if p == |s| then None
    else
      var here := if p + 2 <= |s| && s[p] == '!' && s[p + 1] == '[' then MatchWithAlt(s, p, 0) else None;
      if here.Some? then here else FirstMatchFrom(s, p + 1)
  }

  /** From `p` on, the scan finds the preferred match, and finds none only when there is none. */
  lemma {:induction false} FirstMatchFromCorrect(s: string, p: nat)
    requires p <= |s|
    ensures FirstMatchFrom(s, p).Some? ==>
      var m := FirstMatchFrom(s, p).value;
      && p <= m.start && IsMatchAt(s, m.start, m.alt, m.url)
      && forall p', a, u :: p <= p' && IsMatchAt(s, p', a, u) ==> Precedes(m, p', a, u)
    ensures FirstMatchFrom(s, p).None? ==> forall p', a, u :: p <= p' ==> !IsMatchAt(s, p', a, u)
    decreases |s| - p
  {
    if p < |s| {
      var opens := p + 2 <= |s| && s[p] == '!' && s[p + 1] == '[';
      if opens {
        MatchWithAltCorrect(s, p, 0);
      }
      assert !opens ==> forall a, u :: !IsMatchAt(s, p, a, u);
      FirstMatchFromCorrect(s, p + 1);
    }
  }

  /**
   * `s.match(/!\[.*?\]\((.*?)\)/)`: the match the engine reports, or None
   * exactly when the pattern matches nowhere in `s`.
   */
  function FirstMatch(s: string): (r: Option<Match>)
    ensures r.Some? ==> IsFirstMatch(s, r.value)
    ensures r.None? <==> forall p, a, u :: !IsMatchAt(s, p, a, u)
  {
    FirstMatchFromCorrect(s, 0);
    FirstMatchFrom(s, 0)
  }

  /** The match the engine reports is determined by the pattern alone. */
  lemma FirstMatchUnique(s: string, m: Match, n: Match)
    requires IsFirstMatch(s, m) && IsFirstMatch(s, n)
    ensures m == n
  {
  }

  /** A captured URL lies on one line: it holds no line terminator. */
  lemma UrlOnOneLine(s: string, m: Match)
    requires IsMatchAt(s, m.start, m.alt, m.url)
    ensures forall k :: 0 <= k < |Url(s, m)| ==> !IsLineTerminator(Url(s, m)[k])
  {
    var q := m.start + 4 + m.alt;
    forall k | 0 <= k < |Url(s, m)| ensures !IsLineTerminator(Url(s, m)[k]) {
      assert Url(s, m)[k] == s[q + k];
    }
  }

  /** `![alt](url)`: a markdown image link as it appears in the text. */
  function Link(alt: string, url: string): string {
    "![" + alt + "](" + url + ")"
  }

  /** `s` holds no line terminator and not the character `c`. */
  predicate PlainWithout(s: string, c: char) {
    forall k :: 0 <= k < |s| ==> s[k] != c && !IsLineTerminator(s[k])
  }

  /**
   * Text without `!` followed by a link whose alt text has no `]` and whose
   * URL has no `)`: the engine reports that link, and captures its URL,
   * whatever follows it.
   */
  lemma LinkIsFirstMatch(before: string, alt: string, url: string, after: string)
    requires '!' !in before && PlainWithout(alt, ']') && PlainWithout(url, ')')
    ensures var s, m := before + Link(alt, url) + after, Match(|before|, |alt|, |url|);
      IsFirstMatch(s, m) && Url(s, m) == url
  {
    var s := before + Link(alt, url) + after;
    var b, q := |before|, |before| + 4 + |alt|;
    assert s[..b] == before;
    assert forall k :: 0 <= k < |alt| ==> s[b + 2 + k] == alt[k];
    assert forall k :: 0 <= k < |url| ==> s[q + k] == url[k];
    assert s[b] == '!' && s[b + 1] == '[' && s[b + 2 + |alt|] == ']' && s[b + 3 + |alt|] == '(';
    assert s[q + |url|] == ')';
    assert IsMatchAt(s, b, |alt|, |url|);
    assert forall p: nat, a: nat, u: nat :: IsMatchAt(s, p, a, u) ==> Precedes(Match(b, |alt|, |url|), p, a, u);
    assert s[q..q + |url|] == url;
  }

  /** Text without `!` holds no markdown image link. */
  lemma NoBangNoMatch(s: string)
    requires '!' !in s
    ensures FirstMatch(s) == None
  {
    assert forall p: nat, a: nat, u: nat :: IsMatchAt(s, p, a, u) ==> s[p] in s;
  }
}
