/**
 Paths of installer packages: the rule of the package builder, the rule of the
 kernel's package reader, and exactly how they differ.
 */
module PackagePath {
  import opened Bytes

  type Path = seq<Byte>

  const SLASH: Byte := 47
  const DOT: Byte := 46
  const PATH_FIELD: nat := 128

  /** Letters, digits and the underscore, in either case. */
  predicate Allowed(c: Byte) {
    48 <= c <= 57 || 65 <= c <= 90 || 97 <= c <= 122 || c == 95
  }

  predicate AllAllowed(s: Path) {
    forall i :: 0 <= i < |s| ==> Allowed(s[i])
  }

  /** The first position of the separator, or the length. */
  function IndexOf(s: Path, sep: Byte): (r: nat)
    ensures r <= |s| && (r < |s| ==> s[r] == sep)
    ensures forall i :: 0 <= i < r ==> s[i] != sep
  {
    if s == [] || s[0] == sep then 0 else 1 + IndexOf(s[1..], sep)
  }

  function Split(s: Path, sep: Byte): (r: seq<Path>)
    ensures |r| >= 1
    decreases |s|
  {
    var d := IndexOf(s, sep);
    if d == |s| then [s] else [s[..d]] + Split(s[d + 1..], sep)
  }

  // ----- The builder's rule -----

  predicate IsShortComponent(c: Path) {
    && c != [] && c != [DOT] && c != [DOT, DOT]
    && var pieces := Split(c, DOT);
    && |pieces| <= 2 && 1 <= |pieces[0]| <= 8
    && (|pieces| == 2 ==> 1 <= |pieces[1]| <= 3)
    && forall k :: 0 <= k < |pieces| ==> AllAllowed(pieces[k])
  }

  ghost predicate EachShort(pieces: seq<Path>) {
    forall k :: 0 <= k < |pieces| ==> IsShortComponent(pieces[k])
  }

  predicate NonemptyShort(pieces: seq<Path>) {
    forall k :: 0 <= k < |pieces| && pieces[k] != [] ==> IsShortComponent(pieces[k])
  }

  ghost predicate NoneEmpty(pieces: seq<Path>) {
    forall k :: 0 <= k < |pieces| ==> pieces[k] != []
  }

  lemma PieceInFront(piece: Path, rest: seq<Path>)
    ensures EachShort([piece] + rest) <==> IsShortComponent(piece) && EachShort(rest)
    ensures NonemptyShort([piece] + rest) <==> (piece == [] || IsShortComponent(piece)) && NonemptyShort(rest)
  {
    hide IsShortComponent;
    var pieces := [piece] + rest;
    assert pieces[0] == piece && forall k :: 0 <= k < |rest| ==> pieces[k + 1] == rest[k];
    assert forall k :: 1 <= k < |pieces| ==> pieces[k] == rest[k - 1];
  }

  /** A rooted path of fewer than 128 ASCII characters whose nonempty components are short. */
  predicate CheckedPath(path: Path) {
    && path != [] && path[0] == SLASH && |path| < PATH_FIELD
    && (forall i :: 0 <= i < |path| ==> path[i] < 128)
    && NonemptyShort(Split(path, SLASH))
  }

  // ----- The kernel's rule -----

  /** A name of one to eight characters with an optional extension of one to three. */
  ghost predicate ShortName(c: Path) {
    var d := IndexOf(c, DOT);
    && 1 <= d <= 8 && AllAllowed(c[..d])
    && (d < |c| ==> 1 <= |c| - d - 1 <= 3 && AllAllowed(c[d + 1..]))
  }

  method ValidComponent(c: Path) returns (ok: bool)
    ensures ok <==> ShortName(c)
  {
    if |c| == 0 || |c| > 12 {
      return false;
    }
    var dot := |c|;
    var index := 0;
    while index < |c|
      invariant 0 <= index <= |c|
      invariant dot == |c| || dot < index
      invariant dot == |c| ==> forall i :: 0 <= i < index ==> c[i] != DOT
      invariant dot < |c| ==> dot == IndexOf(c, DOT)
      invariant forall i :: 0 <= i < index && i != dot ==> Allowed(c[i])
    {
      if c[index] == DOT {
        if dot != |c| {
          assert c[dot + 1..][index - dot - 1] == DOT;
          return false;
        }
        dot := index;
      } else if !Allowed(c[index]) {
        ghost var d := IndexOf(c, DOT);
        assert index < d ==> c[..d][index] == c[index];
        assert index > d ==> c[d + 1..][index - d - 1] == c[index];
        return false;
      }
      index := index + 1;
    }
    assert dot == IndexOf(c, DOT);
    ok := 1 <= dot <= 8 && (dot == |c| || 1 <= |c| - dot - 1 <= 3);
  }

  /** Every component between separators is a short name. */
  ghost predicate AllShort(s: Path)
    decreases |s|
  {
    var d := IndexOf(s, SLASH);
    ShortName(s[..d]) && (d < |s| ==> AllShort(s[d + 1..]))
  }

  /** What the kernel accepts. */
  ghost predicate KernelPath(path: Path) {
    path != [] && path[0] == SLASH && |path| < PATH_FIELD && AllShort(path[1..])
  }

  /** The path in a NUL-padded field. */
  function PathIn(field: Path): (r: Path) {
    field[..IndexOf(field, 0)]
  }

  ghost predicate FieldOk(field: Path)
    requires |field| == PATH_FIELD
  {
    && KernelPath(PathIn(field))
    && forall i :: |PathIn(field)| <= i < PATH_FIELD ==> field[i] == 0
  }

  /** One more component of a path, from start up to a separator or the end. */
  lemma ComponentStep(whole: Path, start: nat, end: nat)
    requires start <= end <= |whole|
    requires forall i :: start <= i < end ==> whole[i] != SLASH
    requires end < |whole| ==> whole[end] == SLASH
    ensures AllShort(whole[start..]) <==> ShortName(whole[start..end]) && (end < |whole| ==> AllShort(whole[end + 1..]))
  {
    var s, d := whole[start..], end - start;
    assert d == IndexOf(s, SLASH);
    assert s[..d] == whole[start..end];
    assert end < |whole| ==> s[d + 1..] == whole[end + 1..];
  }

  /** Scans the components of the text before the first NUL. */
  method ScanPath(field: Path, ghost n: nat) returns (ok: bool, length: nat)
    requires |field| == PATH_FIELD && n == IndexOf(field, 0) && field[0] == SLASH
    ensures ok <==> n < PATH_FIELD && AllShort(field[1..n])
    ensures ok ==> length == n
  {
    hide AllShort, ShortName;
    ghost var whole := field[..n];
    assert whole[1..] == field[1..n];
    var start := 1;
    length := 0;
    while length < PATH_FIELD && field[length] != 0
      invariant 0 <= length <= n && start <= n && if length == 0 then start == 1 else 1 <= start <= length
      invariant AllShort(whole[1..]) <==> AllShort(whole[start..])
      invariant forall i :: start <= i < length ==> whole[i] != SLASH
      decreases n - length
    {
      var c := field[length];
      assert whole[length] == c;
      if c < 32 || c > 126 || c == 92 {
        if AllShort(whole[1..]) {
          AsciiPath(whole);
        }
        return false, 0;
      }
      if c == SLASH && length != 0 {
        ComponentStep(whole, start, length);
        assert whole[start..length] == field[start..length];
        var valid := ValidComponent(field[start..length]);
        if !valid {
          return false, 0;
        }
        start := length + 1;
      }
      length := length + 1;
    }
    ComponentStep(whole, start, n);
    assert whole[start..n] == field[start..n];
    if length >= PATH_FIELD {
      return false, 0;
    }
    if start >= length {
      EmptyName();
      return false, 0;
    }
    ok := ValidComponent(field[start..length]);
  }

  method ValidPath(field: Path) returns (ok: bool, path: Path)
    requires |field| == PATH_FIELD
    ensures ok <==> FieldOk(field)
    ensures ok ==> path == PathIn(field)
  {
    hide AllShort;
    if field[0] != SLASH {
      return false, [];
    }
    var length;
    ok, length := ScanPath(field, IndexOf(field, 0));
    assert PathIn(field)[1..] == field[1..IndexOf(field, 0)];
    if !ok {
      return false, [];
    }
    var index := length + 1;
    while index < PATH_FIELD
      invariant length < index <= PATH_FIELD
      invariant forall i :: length <= i < index ==> field[i] == 0
    {
      if field[index] != 0 {
        return false, [];
      }
      index := index + 1;
    }
    path := field[..length];
  }

  lemma EmptyName()
    ensures !ShortName([])
  {
  }

  lemma NameAllowed(c: Path, i: nat)
    requires ShortName(c) && i < |c|
    ensures Allowed(c[i]) || c[i] == DOT
  {
  }

  lemma {:induction false} PathAllowed(s: Path, i: nat)
    requires AllShort(s) && i < |s|
    ensures Allowed(s[i]) || s[i] == DOT || s[i] == SLASH
    decreases |s|
  {
    hide ShortName;
    var d := IndexOf(s, SLASH);
    if i < d {
      NameAllowed(s[..d], i);
    } else if i > d {
      PathAllowed(s[d + 1..], i - d - 1);
    }
  }

  // ----- How the rules relate -----

  lemma ComponentsAgree(c: Path)
    ensures IsShortComponent(c) <==> ShortName(c)
  {
    var d := IndexOf(c, DOT);
    if d < |c| {
      var rest := c[d + 1..];
      var e := IndexOf(rest, DOT);
      assert Split(c, DOT) == [c[..d]] + Split(rest, DOT);
      if e < |rest| {
        assert |Split(rest, DOT)| >= 2;
        assert rest[e] == DOT;
      } else {
        assert Split(rest, DOT) == [rest];
      }
    } else {
      assert c[..d] == c;
    }
  }

  lemma {:induction false} AllShortIsSplit(s: Path)
    ensures AllShort(s) <==> EachShort(Split(s, SLASH))
    decreases |s|
  {
    hide IsShortComponent, ShortName;
    var d := IndexOf(s, SLASH);
    ComponentsAgree(s[..d]);
    if d < |s| {
      AllShortIsSplit(s[d + 1..]);
      PieceInFront(s[..d], Split(s[d + 1..], SLASH));
    } else {
      assert s[..d] == s && Split(s, SLASH) == [s] + [];
      PieceInFront(s, []);
    }
  }

  /** No two separators in a row, none at the end. */
  ghost predicate NoEmptyComponent(path: Path)
    requires path != []
  {
    NoneEmpty(Split(path[1..], SLASH))
  }

  lemma ShortAndNonempty(pieces: seq<Path>)
    ensures EachShort(pieces) <==> NonemptyShort(pieces) && NoneEmpty(pieces)
  {
  }

  /** The kernel accepts the builder's paths without empty components, and no others. */
  lemma PathsAgree(path: Path)
    ensures KernelPath(path) <==> CheckedPath(path) && NoEmptyComponent(path)
  {
    hide EachShort, NonemptyShort, NoneEmpty, AllShort, IsShortComponent;
    if path != [] && path[0] == SLASH {
      var rest := Split(path[1..], SLASH);
      assert Split(path, SLASH) == [[]] + rest by { assert IndexOf(path, SLASH) == 0; assert path[..0] == []; }
      PieceInFront([], rest);
      ShortAndNonempty(rest);
      AllShortIsSplit(path[1..]);
      if AllShort(path[1..]) {
        AsciiPath(path);
      }
    }
  }

  lemma AsciiPath(path: Path)
    requires path != [] && path[0] == SLASH && AllShort(path[1..])
    ensures forall i :: 0 <= i < |path| ==> 32 <= path[i] < 127 && path[i] != 92
  {
    forall i | 1 <= i < |path|
      ensures 32 <= path[i] < 127 && path[i] != 92
    {
      PathAllowed(path[1..], i - 1);
    }
  }

  lemma {:induction false} PiecesAllowed(s: Path, i: nat)
    requires NonemptyShort(Split(s, SLASH)) && i < |s|
    ensures Allowed(s[i]) || s[i] == DOT || s[i] == SLASH
    decreases |s|
  {
    hide IsShortComponent, ShortName, NonemptyShort;
    var d := IndexOf(s, SLASH);
    var piece := s[..d];
    if d < |s| {
      PieceInFront(piece, Split(s[d + 1..], SLASH));
    } else {
      assert piece == s && Split(s, SLASH) == [piece] + [];
      PieceInFront(piece, []);
    }
    if i < d {
      ComponentsAgree(piece);
      NameAllowed(piece, i);
    } else if i > d {
      PiecesAllowed(s[d + 1..], i - d - 1);
    }
  }

  /** A builder's path survives its NUL-padded field. */
  lemma FieldRoundTrip(path: Path)
    requires CheckedPath(path)
    ensures PathIn(path + Zeros(PATH_FIELD - |path|)) == path
    ensures FieldOk(path + Zeros(PATH_FIELD - |path|)) <==> NoEmptyComponent(path)
  {
    var field := path + Zeros(PATH_FIELD - |path|);
    forall i | 0 <= i < |path|
      ensures field[i] != 0
    {
      PiecesAllowed(path, i);
    }
    assert field[|path|] == 0;
    assert IndexOf(field, 0) == |path|;
    assert field[..|path|] == path;
    PathsAgree(path);
  }

  /** The builder takes the bare root and doubled separators; the kernel does not. */
  lemma BuilderTakesMore()
    ensures CheckedPath([SLASH]) && !KernelPath([SLASH])
    ensures CheckedPath([SLASH, SLASH, 65]) && !KernelPath([SLASH, SLASH, 65])
  {
    assert [SLASH][1..] == [] && [SLASH, SLASH, 65][1..] == [SLASH, 65] && [SLASH, 65][1..] == [65];
    assert IndexOf([65], SLASH) == 1 && [65][..1] == [65];
    assert Split([65], SLASH) == [[65]];
    assert ShortName([65]) by { assert IndexOf([65], DOT) == 1; }
    ComponentsAgree([65]);
    assert Split([SLASH, 65], SLASH) == [[], [65]];
    assert Split([SLASH, SLASH, 65], SLASH) == [[]] + [[], [65]];
    assert Split([SLASH], SLASH) == [[], []];
  }
}
