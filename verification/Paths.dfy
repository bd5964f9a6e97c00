/** `strtok` over a whole string, and the paths the code builds back from tokens. */
module Paths {
  import opened Bytes

  const SLASH: byte := 47
  const QUOTE: byte := 39

  /** The separators of `f_open` and `f_mkdir`, and those of `f_opendir` and `f_remove`. */
  const SLASH_ONLY: set<byte> := {SLASH}
  const SLASH_QUOTE: set<byte> := {SLASH, QUOTE}

  /** The length of the leading run without separators. */
  function RunLength(s: seq<byte>, seps: set<byte>): (n: nat)
    ensures n <= |s|
    ensures forall i :: 0 <= i < n ==> s[i] !in seps
    ensures n < |s| ==> s[n] in seps
  {
    if s == [] || s[0] in seps then 0 else 1 + RunLength(s[1..], seps)
  }

  /** All tokens that successive calls of `strtok` return. */
  function Tokens(s: seq<byte>, seps: set<byte>): (r: seq<seq<byte>>)
    ensures forall t :: t in r ==> t != [] && forall c :: c in t ==> c !in seps
    decreases |s|
  {
    if s == [] then []
    else if s[0] in seps then Tokens(s[1..], seps)
    else
      var n := RunLength(s, seps);
      [s[..n]] + Tokens(s[n..], seps)
  }

  /** The string the code concatenates from names: "/a/b/c". */
  function PathString(names: seq<seq<byte>>): seq<byte> {
    if names == [] then [] else [SLASH] + names[0] + PathString(names[1..])
  }

  predicate Clean(name: seq<byte>, seps: set<byte>) {
    name != [] && forall c :: c in name ==> c !in seps
  }

  lemma {:induction false} RunOfName(name: seq<byte>, rest: seq<byte>, seps: set<byte>)
    requires forall c :: c in name ==> c !in seps
    requires rest != [] ==> rest[0] in seps
    ensures RunLength(name + rest, seps) == |name|
  {
    if name == [] {
      assert name + rest == rest;
    } else {
      assert (name + rest)[0] == name[0] && name[0] in name;
      assert (name + rest)[1..] == name[1..] + rest;
      RunOfName(name[1..], rest, seps);
    }
  }

  /** Clean names come back from the path built of them. */
  lemma {:induction false} TokensOfPath(names: seq<seq<byte>>, seps: set<byte>)
    requires SLASH in seps && forall n :: n in names ==> Clean(n, seps)
    ensures Tokens(PathString(names), seps) == names
  {
    if names != [] {
      var name, rest := names[0], PathString(names[1..]);
      var s := PathString(names);
      assert s[1..] == name + rest;
      assert name in names;
      TokensOfPath(names[1..], seps);
      RunOfName(name, rest, seps);
      assert (name + rest)[0] == name[0] && name[0] in name;
      assert (name + rest)[..|name|] == name && (name + rest)[|name|..] == rest;
      assert names == [name] + names[1..];
    }
  }

  // ---- names that may hold separators ----

  /** The tokens of each name, one name after the other. */
  function Pieces(names: seq<seq<byte>>, seps: set<byte>): seq<seq<byte>> {
    if names == [] then [] else Tokens(names[0], seps) + Pieces(names[1..], seps)
  }

  lemma {:induction false} RunBefore(a: seq<byte>, b: seq<byte>, seps: set<byte>)
    requires b != [] ==> b[0] in seps
    ensures RunLength(a + b, seps) == RunLength(a, seps)
  {
    if a == [] {
      assert a + b == b;
    } else {
      assert (a + b)[0] == a[0] && (a + b)[1..] == a[1..] + b;
      RunBefore(a[1..], b, seps);
    }
  }

  /** A separator cuts: what stands before it and what stands after it are cut up on their own. */
  lemma {:induction false} TokensBefore(a: seq<byte>, b: seq<byte>, seps: set<byte>)
    requires b != [] ==> b[0] in seps
    ensures Tokens(a + b, seps) == Tokens(a, seps) + Tokens(b, seps)
    decreases |a|
  {
    if a == [] {
      assert a + b == b;
    } else if a[0] in seps {
      assert (a + b)[0] == a[0] && (a + b)[1..] == a[1..] + b;
      TokensBefore(a[1..], b, seps);
    } else {
      var n := RunLength(a, seps);
      RunBefore(a, b, seps);
      assert (a + b)[0] == a[0] && (a + b)[..n] == a[..n] && (a + b)[n..] == a[n..] + b;
      TokensBefore(a[n..], b, seps);
    }
  }

  /** A separator in front is skipped. */
  lemma SeparatorFirst(c: byte, s: seq<byte>, seps: set<byte>)
    requires c in seps
    ensures Tokens([c] + s, seps) == Tokens(s, seps)
  {
    assert ([c] + s)[1..] == s;
  }

  /** A clean name alone is one token. */
  lemma OneToken(name: seq<byte>, seps: set<byte>)
    requires Clean(name, seps)
    ensures Tokens(name, seps) == [name]
  {
    assert name + [] == name;
    RunOfName(name, [], seps);
    assert name[0] in name;
    assert name[..|name|] == name && name[|name|..] == [];
  }

  /** Whatever the names are, the tokens of the path built of them are the pieces of the names. */
  lemma {:induction false} TokensArePieces(names: seq<seq<byte>>, seps: set<byte>)
    requires SLASH in seps
    ensures Tokens(PathString(names), seps) == Pieces(names, seps)
  {
    if names != [] {
      var rest := PathString(names[1..]);
      assert PathString(names)[1..] == names[0] + rest;
      TokensBefore(names[0], rest, seps);
      TokensArePieces(names[1..], seps);
    }
  }

  /** A path gives its names back exactly when every name is free of separators. */
  lemma PathRoundTripExactly(names: seq<seq<byte>>, seps: set<byte>)
    requires SLASH in seps && forall n :: n in names ==> n != []
    ensures Tokens(PathString(names), seps) == names <==> forall n :: n in names ==> Clean(n, seps)
  {
    if forall n :: n in names ==> Clean(n, seps) {
      TokensOfPath(names, seps);
    }
  }
}
