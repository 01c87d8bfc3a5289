/** The POSIX path operations the engine builds its path strings with:
    os.path.join, os.path.splitext and str.split(os.path.sep), with os.path.sep == '/'. */
module Paths {

  const Sep: char := '/'
  const ExtSep: char := '.'

  predicate SepFree(s: string) {
    Sep !in s
  }

  /** Every part is a non-empty name without a separator: the names for which
      joining and splitting are inverse. */
  predicate PlainNames(parts: seq<string>) {
    forall i :: 0 <= i < |parts| ==> parts[i] != [] && SepFree(parts[i])
  }

  /** str.startswith(".") */
  predicate Hidden(name: string) {
    |name| > 0 && name[0] == ExtSep
  }

  /** `t` is a suffix of `s`. */
  predicate EndsWith(s: string, t: string) {
    |t| <= |s| && s[|s| - |t|..] == t
  }

  /** os.path.join(a, b): an absolute `b` replaces `a`; no separator is added after
      an empty `a` or one that already ends in a separator. */
  function Join(a: string, b: string): (r: string)
    ensures EndsWith(r, b)
    ensures |b| > 0 && b[0] == Sep ==> r == b
    ensures !(|b| > 0 && b[0] == Sep) ==> |a| <= |r| && r[..|a|] == a
  {
    if |b| > 0 && b[0] == Sep then b
    else if a == [] || a[|a| - 1] == Sep then a + b
    else a + [Sep] + b
  }

  /** os.path.join(a, *ps): a left fold of Join. */
  function JoinAll(a: string, ps: seq<string>): (r: string)
    ensures ps == [] ==> r == a
    ensures ps != [] ==> EndsWith(r, ps[|ps| - 1])
    decreases |ps|
  {
    if ps == [] then a
    else
      assert |ps| > 1 ==> ps[1..][|ps| - 2] == ps[|ps| - 1];
      JoinAll(Join(a, ps[0]), ps[1..])
  }

  /** sep.join(parts), the inverse of str.split(sep). */
  function SepJoin(parts: seq<string>): string
    requires |parts| > 0
  {
    if |parts| == 1 then parts[0] else parts[0] + [Sep] + SepJoin(parts[1..])
  }

  /** s.split(sep): the pieces between separators, empty ones included. */
  function Split(s: string): (r: seq<string>)
    ensures |r| > 0
    ensures forall i :: 0 <= i < |r| ==> SepFree(r[i])
    ensures SepJoin(r) == s
  {
    if s == [] then [[]]
    else
      var rest := Split(s[1..]);
      if s[0] == Sep then [[]] + rest
      else [[s[0]] + rest[0]] + rest[1..]
  }

  /** s.rfind(c), -1 when `c` does not occur. */
  function RFind(s: string, c: char): (i: int)
    ensures -1 <= i < |s|
    ensures 0 <= i ==> s[i] == c
    ensures forall k :: i < k < |s| ==> s[k] != c
  {
    if s == [] then -1
    else if s[|s| - 1] == c then |s| - 1
    else RFind(s[..|s| - 1], c)
  }

  /** os.path.splitext(p): the extension runs from the last '.', provided that dot
      lies in the last path component and some character other than '.' comes before
      it in that component (so ".bashrc" and "..md" have no extension). */
  function SplitExt(p: string): (r: (string, string))
    ensures r.0 + r.1 == p
    ensures r.1 != [] ==> r.1[0] == ExtSep && ExtSep !in r.1[1..] && SepFree(r.1)
    ensures r.1 != [] ==>
      exists k :: 0 <= k < |r.0| && r.0[k] != ExtSep && SepFree(r.0[k..])
  {
    var sepIndex := RFind(p, Sep);
    var dotIndex := RFind(p, ExtSep);
    if dotIndex > sepIndex && exists k | sepIndex + 1 <= k < dotIndex :: p[k] != ExtSep
    then
      assert forall j :: dotIndex < j < |p| ==> p[j] != Sep && p[j] != ExtSep;
      (p[..dotIndex], p[dotIndex..])
    else (p, [])
  }

  /** Conversely, a dot that is the last one of p, with a non-dot of its last component
      before it, is where SplitExt cuts. */
  lemma SplitExtAtLastDot(p: string, d: int, k: int)
    requires 0 <= k < d < |p| && p[d] == ExtSep && ExtSep !in p[d + 1..]
    requires p[k] != ExtSep && SepFree(p[k..])
    ensures SplitExt(p) == (p[..d], p[d..])
  {
    LastDot(p, d, k);
  }

  /** The last dot of a name, with a non-dot of its last component before it, is where
      rfind finds the last dot, after the last separator. */
  lemma LastDot(p: string, d: int, k: int)
    requires 0 <= k < d < |p| && p[d] == ExtSep && ExtSep !in p[d + 1..]
    requires SepFree(p[k..])
    ensures RFind(p, ExtSep) == d && RFind(p, Sep) < k
  {
    var i := RFind(p, ExtSep);
    var j := RFind(p, Sep);
    assert i < |p| && j < |p|;
  }

  /** The name without its extension: a prefix of it, all of it without an extension. */
  function Stem(p: string): (r: string)
    ensures |r| <= |p| && r == p[..|r|]
    ensures r + Ext(p) == p
  {
    SplitExt(p).0
  }

  /** The extension: a suffix of the name, empty or a dot followed by no dot and no separator. */
  function Ext(p: string): (r: string)
    ensures EndsWith(p, r)
    ensures r != [] ==> r[0] == ExtSep && ExtSep !in r[1..] && SepFree(r)
  {
    SplitExt(p).1
  }

  // ---------------------------------------------------------------------------
  // Joining and splitting are inverse on plain names.

  lemma {:induction false} SplitOfSepFree(a: string)
    requires SepFree(a)
    ensures Split(a) == [a]
  {
    if a != [] {
      SplitOfSepFree(a[1..]);
    }
  }

  lemma {:induction false} SplitCons(a: string, b: string)
    requires SepFree(a)
    ensures Split(a + [Sep] + b) == [a] + Split(b)
  {
    if a == [] {
      assert (a + [Sep] + b)[1..] == b;
    } else {
      assert a[0] in a;
      assert (a + [Sep] + b)[1..] == a[1..] + [Sep] + b;
      SplitCons(a[1..], b);
      assert [a[0]] + a[1..] == a;
    }
  }

  /** Splitting a separator-joined list of separator-free names gives the names back. */
  lemma {:induction false} SplitSepJoin(parts: seq<string>)
    requires |parts| > 0
    requires forall i :: 0 <= i < |parts| ==> SepFree(parts[i])
    ensures Split(SepJoin(parts)) == parts
  {
    if |parts| == 1 {
      SplitOfSepFree(parts[0]);
    } else {
      SplitCons(parts[0], SepJoin(parts[1..]));
      SplitSepJoin(parts[1..]);
    }
  }

  /** os.path.join of plain names is the separator-join of those names. */
  lemma {:induction false} JoinAllIsSepJoin(a: string, ps: seq<string>)
    requires a != [] && a[|a| - 1] != Sep
    requires |ps| > 0 && PlainNames(ps)
    ensures JoinAll(a, ps) == a + [Sep] + SepJoin(ps)
    decreases |ps|
  {
    var a' := Join(a, ps[0]);
    JoinPlain(a, ps[0]);
    assert JoinAll(a, ps) == JoinAll(a', ps[1..]);
    if |ps| > 1 {
      JoinAllIsSepJoin(a', ps[1..]);
      var rest := SepJoin(ps[1..]);
      assert SepJoin(ps) == ps[0] + [Sep] + rest;
      Reassociate(a + [Sep], ps[0], [Sep]);
      Reassociate(a + [Sep], ps[0] + [Sep], rest);
    }
  }

  /** Concatenation regrouped, as a step the solver can take without searching for it. */
  lemma Reassociate<T>(a: seq<T>, b: seq<T>, c: seq<T>)
    ensures (a + b) + c == a + (b + c)
  {
  }

  /** Joining a plain name onto a path that does not end in a separator adds one. */
  lemma JoinPlain(a: string, b: string)
    requires a != [] && a[|a| - 1] != Sep
    requires b != [] && SepFree(b)
    ensures Join(a, b) == a + [Sep] + b
    ensures Join(a, b) != [] && Join(a, b)[|Join(a, b)| - 1] != Sep
  {
    assert b[|b| - 1] in b;
  }

  /** Joining one more plain name onto a separator-joined path. */
  lemma {:induction false} JoinSepJoin(parts: seq<string>, name: string)
    requires |parts| > 0 && PlainNames(parts)
    requires name != [] && SepFree(name)
    ensures Join(SepJoin(parts), name) == SepJoin(parts + [name])
  {
    LastOfSepJoin(parts);
    JoinPlain(SepJoin(parts), name);
    assert (parts + [name])[1..] == parts[1..] + [name];
    if |parts| > 1 {
      var rest := SepJoin(parts[1..]);
      LastOfSepJoin(parts[1..]);
      JoinSepJoin(parts[1..], name);
      JoinPlain(rest, name);
      Reassociate(parts[0] + [Sep], rest, [Sep]);
      Reassociate(parts[0] + [Sep], rest + [Sep], name);
    }
  }

  lemma {:induction false} LastOfSepJoin(parts: seq<string>)
    requires |parts| > 0 && PlainNames(parts)
    ensures SepJoin(parts) != [] && SepJoin(parts)[|SepJoin(parts)| - 1] != Sep
  {
    var last := parts[|parts| - 1];
    assert last[|last| - 1] in last;
    if |parts| > 1 {
      LastOfSepJoin(parts[1..]);
    } else {
      assert parts[0][|parts[0]| - 1] in parts[0];
    }
  }

  // ---------------------------------------------------------------------------
  // What splitext says about a single name.

  /** A name without a dot has no extension. */
  lemma NoDotNoExt(p: string)
    requires ExtSep !in p
    ensures SplitExt(p) == (p, [])
  {
  }

  /** The page rule of the collectors: a separator-free name has the extension ".md"
      exactly when it ends in ".md" and something other than dots precedes that suffix. */
  lemma MarkdownExt(name: string)
    requires SepFree(name)
    ensures Ext(name) == ".md" <==>
      |name| > 3 && name[|name| - 3..] == ".md" && exists k :: 0 <= k < |name| - 3 && name[k] != ExtSep
  {
    if |name| > 3 && name[|name| - 3..] == ".md" {
      var d := |name| - 3;
      assert name[d] == '.' && name[d + 1] == 'm' && name[d + 2] == 'd';
      assert RFind(name, ExtSep) == d;
      assert RFind(name, Sep) == -1;
    }
    if Ext(name) == ".md" {
      var d := RFind(name, ExtSep);
      assert SplitExt(name).0 == name[..d];
      assert |name| - d == 3;
    }
  }
}
