/** The few PHP string built-ins the certificate task relies on, written out over
    `seq<char>`: `rtrim`/`trim` with a character list, `str_replace` of one
    character, and `explode` on a one-character delimiter (with `implode` as its
    inverse). */
module PhpStrings {

  /** The characters PHP's `trim` strips when it is given no character list. */
  const Whitespace: set<char> := {' ', '\t', '\n', '\r', '\0', '\U{B}'}

  /** `rtrim(s, cs)`: drop every trailing character that is in `cs`. */
  function TrimRight(s: string, cs: set<char>): (r: string)
    ensures r <= s
    ensures r == [] || r[|r| - 1] !in cs
    ensures forall k :: |r| <= k < |s| ==> s[k] in cs
  {
    if s == [] || s[|s| - 1] !in cs then s else TrimRight(s[..|s| - 1], cs)
  }

  /** `ltrim(s, cs)`: drop every leading character that is in `cs`. */
  function TrimLeft(s: string, cs: set<char>): (r: string)
    ensures |r| <= |s| && r == s[|s| - |r|..]
    ensures r == [] || r[0] !in cs
    ensures forall k :: 0 <= k < |s| - |r| ==> s[k] in cs
  {
    if s == [] || s[0] !in cs then s else TrimLeft(s[1..], cs)
  }

  /** `r` is the piece of `s` that starts at `i`, and every character of `s`
      before or after it is whitespace. */
  predicate CutFrom(s: string, r: string, i: int) {
    && 0 <= i <= |s| - |r| && r == s[i..i + |r|]
    && forall k :: 0 <= k < |s| && (k < i || i + |r| <= k) ==> s[k] in Whitespace
  }

  /** `trim(s)`: strip PHP's default whitespace from both ends. The result
      is a piece of `s` with only whitespace around it, and it neither starts
      nor ends with whitespace. */
  function Trim(s: string): (r: string)
    ensures |r| <= |s|
    ensures r == [] || (r[0] !in Whitespace && r[|r| - 1] !in Whitespace)
    ensures exists i :: CutFrom(s, r, i)
  {
    var t := TrimRight(s, Whitespace);
    var r := TrimLeft(t, Whitespace);
    TrimCut(s, t, r);
    r
  }

  lemma TrimCut(s: string, t: string, r: string)
    requires t == TrimRight(s, Whitespace) && r == TrimLeft(t, Whitespace)
    ensures CutFrom(s, r, |t| - |r|)
  {
    var i := |t| - |r|;
    assert t == s[..|t|];
    assert r == t[i..] == s[i..|t|];
    forall k | 0 <= k < i ensures s[k] in Whitespace {
      assert s[k] == t[k];
    }
  }

  /** A string `Trim` leaves alone. */
  predicate Trimmed(s: string) {
    s == [] || (s[0] !in Whitespace && s[|s| - 1] !in Whitespace)
  }

  /** `str_replace(from, to, s)` for one-character needle and replacement. */
  function ReplaceChar(s: string, from: char, to: char): (r: string)
    ensures |r| == |s|
    ensures forall i :: 0 <= i < |s| && s[i] != from ==> r[i] == s[i]
    ensures forall i :: 0 <= i < |s| && s[i] == from ==> r[i] == to
    ensures from != to ==> from !in r
  {
    if s == [] then []
    else [if s[0] == from then to else s[0]] + ReplaceChar(s[1..], from, to)
  }

  /** `implode(d, ps)`: the pieces joined with the delimiter between them. */
  function Implode(ps: seq<string>, d: char): string
    requires |ps| >= 1
  {
    if |ps| == 1 then ps[0] else ps[0] + [d] + Implode(ps[1..], d)
  }

  /** `explode(d, s)`: the pieces between delimiters, at least one of them
      (`explode(',', "")` is `[""]`); joining them back gives `s`. */
  function Explode(s: string, d: char): (r: seq<string>)
    ensures |r| >= 1
    ensures forall p :: p in r ==> d !in p
    ensures Implode(r, d) == s
  {
    if s == [] then [""]
    else
      var rest := Explode(s[1..], d);
      if s[0] == d then [""] + rest
      else [[s[0]] + rest[0]] + rest[1..]
  }

  /** A string without the delimiter explodes into itself alone. */
  lemma {:induction false} ExplodeNoDelimiter(p: string, d: char)
    requires d !in p
    ensures Explode(p, d) == [p]
  {
    if p != [] {
      ExplodeNoDelimiter(p[1..], d);
    }
  }

  /** A leading delimiter-free piece followed by the delimiter is split off whole. */
  lemma {:induction false} ExplodeCons(p: string, d: char, t: string)
    requires d !in p
    ensures Explode(p + [d] + t, d) == [p] + Explode(t, d)
  {
    if p == [] {
      assert p + [d] + t == [d] + t;
      assert ([d] + t)[1..] == t;
    } else {
      ExplodeCons(p[1..], d, t);
      var s := p + [d] + t;
      assert s[0] == p[0] && s[0] != d;
      assert s[1..] == p[1..] + [d] + t;
      var rest := Explode(s[1..], d);
      assert rest[0] == p[1..] && rest[1..] == Explode(t, d);
      assert [s[0]] + rest[0] == p;
    }
  }

  /** `explode` undoes `implode` when no piece contains the delimiter. */
  lemma {:induction false} ExplodeImplode(ps: seq<string>, d: char)
    requires |ps| >= 1
    requires forall p :: p in ps ==> d !in p
    ensures Explode(Implode(ps, d), d) == ps
  {
    if |ps| == 1 {
      ExplodeNoDelimiter(ps[0], d);
    } else {
      ExplodeImplode(ps[1..], d);
      ExplodeCons(ps[0], d, Implode(ps[1..], d));
    }
  }

  /** Trimming twice is trimming once. */
  lemma TrimIdempotent(s: string)
    ensures Trim(Trim(s)) == Trim(s)
  {
    var r := Trim(s);
    assert TrimRight(r, Whitespace) == r;
  }
}
