/**
 * `re.sub(r'\W+', '_', name)`, the event-name part of an event's public
 * path and QR file name: each maximal run of non-word characters becomes a
 * single underscore, and word characters are kept in order.
 */
module Slug {

  import opened Sequences

  /** A regex word character, read as ASCII: `[A-Za-z0-9_]`. */
  predicate IsWordChar(c: char)
  {
    'a' <= c <= 'z' || 'A' <= c <= 'Z' || '0' <= c <= '9' || c == '_'
  }

  ghost predicate AllWord(s: string)
  {
    forall i :: 0 <= i < |s| ==> IsWordChar(s[i])
  }

  ghost predicate AllNonWord(s: string)
  {
    forall i :: 0 <= i < |s| ==> !IsWordChar(s[i])
  }

  /** What is left of `s` once its leading run of non-word characters is consumed. */
  function SkipRun(s: string): (r: string)
    ensures |r| <= |s| && r == s[|s| - |r|..]
    ensures AllNonWord(s[..|s| - |r|])
    ensures r == [] || IsWordChar(r[0])
  {
    if s == [] || IsWordChar(s[0]) then s
    else
      var r := SkipRun(s[1..]);
      assert s[..|s| - |r|] == [s[0]] + s[1..][..|s| - 1 - |r|];
      r
  }

  /** The substitution itself, one maximal run at a time. */
  function Slugify(s: string): (r: string)
    ensures AllWord(r)
    ensures |r| <= |s|
    decreases |s|
  {
    if s == [] then []
    else if IsWordChar(s[0]) then [s[0]] + Slugify(s[1..])
    else "_" + Slugify(SkipRun(s[1..]))
  }

  /**
   * An independent reading of the same substitution, as a left-to-right
   * scan: a non-word character emits `_` unless the previous character was
   * also a non-word character.
   */
  function Scan(s: string, inRun: bool): (r: string)
  {
    if s == [] then []
    else if IsWordChar(s[0]) then [s[0]] + Scan(s[1..], false)
    else (if inRun then "" else "_") + Scan(s[1..], true)
  }

  lemma {:induction false} ScanSkipsRun(n: string, t: string)
    requires AllNonWord(n)
    ensures Scan(n + t, true) == Scan(t, true)
  {
    if n != [] {
      assert (n + t)[1..] == n[1..] + t;
      ScanSkipsRun(n[1..], t);
    } else {
      assert n + t == t;
    }
  }

  /** The run-by-run substitution and the scan agree on every input. */
  lemma {:induction false} SlugifyIsScan(s: string)
    ensures Slugify(s) == Scan(s, false)
    decreases |s|
  {
    if s != [] {
      if IsWordChar(s[0]) {
        SlugifyIsScan(s[1..]);
      } else {
        var rest := s[1..];
        var t := SkipRun(rest);
        var n := rest[..|rest| - |t|];
        assert rest == n + t;
        ScanSkipsRun(n, t);
        SlugifyIsScan(t);
      }
    }
  }

  /** One word character passes through unchanged. */
  lemma SlugifyWordChar(c: char, rest: string)
    requires IsWordChar(c)
    ensures Slugify([c] + rest) == [c] + Slugify(rest)
  {
    assert ([c] + rest)[1..] == rest;
  }

  /** A leading stretch of word characters passes through unchanged. */
  lemma {:induction false} SlugifyKeepsWords(w: string, t: string)
    requires AllWord(w)
    ensures Slugify(w + t) == w + Slugify(t)
  {
    if w != [] {
      var c, v := w[0], w[1..];
      assert w + t == [c] + (v + t);
      SlugifyWordChar(c, v + t);
      SlugifyKeepsWords(v, t);
      assert [c] + (v + Slugify(t)) == w + Slugify(t);
    } else {
      assert w + t == t;
    }
  }

  lemma {:induction false} SkipRunPast(n: string, t: string)
    requires AllNonWord(n)
    requires t == [] || IsWordChar(t[0])
    ensures SkipRun(n + t) == t
  {
    if n != [] {
      assert (n + t)[1..] == n[1..] + t;
      SkipRunPast(n[1..], t);
    }
  }

  /**
   * A maximal run of non-word characters, of any length, becomes exactly one
   * underscore.
   */
  lemma {:induction false} SlugifyCollapsesRun(n: string, t: string)
    requires n != [] && AllNonWord(n)
    requires t == [] || IsWordChar(t[0])
    ensures Slugify(n + t) == "_" + Slugify(t)
  {
    assert (n + t)[1..] == n[1..] + t;
    SkipRunPast(n[1..], t);
  }

  /** A name made only of word characters is its own slug. */
  lemma {:induction false} SlugifyFixesWords(s: string)
    requires AllWord(s)
    ensures Slugify(s) == s
  {
    SlugifyKeepsWords(s, []);
    assert s + [] == s;
  }

  /** Deriving the slug of a slug changes nothing. */
  lemma SlugifyIdempotent(s: string)
    ensures Slugify(Slugify(s)) == Slugify(s)
  {
    SlugifyFixesWords(Slugify(s));
  }


  /** Two words around any run of separators are joined by one underscore. */
  lemma SlugifyJoinsWords(name: string, a: string, sep: string, b: string)
    requires AllWord(a) && AllWord(b) && b != []
    requires sep != [] && AllNonWord(sep)
    requires name == a + sep + b
    ensures Slugify(name) == a + "_" + b
  {
    var t := sep + b;
    assert name == a + t;
    assert Slugify(t) == "_" + b by {
      SlugifyCollapsesRun(sep, b);
      SlugifyFixesWords(b);
    }
    SlugifyKeepsWords(a, t);
    AppendAssoc(a, "_", b);
  }

}
