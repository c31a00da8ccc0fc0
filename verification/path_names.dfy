/**
  Path handling of `ResourceFileSystem` (rcfs.h): character normalisation,
  splitting a path into canonical segments and joining segments back.

  Each operation has a specification function (`Normalize`, `Split`, `Join`)
  and a method that runs the source's loop (`NormalizeNameSymbols`,
  `SplitPath`, `MergePath`) proved equal to it.  Strings are sequences of
  `char`; the source works on bytes, and only ASCII letters, '/', '\\' and '.'
  are given any meaning, so nothing depends on the encoding.
*/
module PathNames {

  /** `toLower`: folds 'A'..'Z' to 'a'..'z' and leaves every other character alone. */
  function ToLower(ch: char): (r: char)
    ensures 'A' <= ch <= 'Z' ==> 'a' <= r <= 'z' && r as int == ch as int + 32
    ensures !('A' <= ch <= 'Z') ==> r == ch
  {
    if 'A' <= ch <= 'Z' then (ch as int - 'A' as int + 'a' as int) as char else ch
  }

  /** What `normalizeNameSymbols` does to one character. */
  function NormalizeChar(ch: char, caseSens: bool): char
  {
    if ch == '\\' then '/' else if caseSens then ch else ToLower(ch)
  }

  /** Specification of `normalizeNameSymbols`. */
  function Normalize(name: string, caseSens: bool): string
  {
    seq(|name|, i requires 0 <= i < |name| => NormalizeChar(name[i], caseSens))
  }

  /** A string that normalisation leaves as it is. */
  ghost predicate Normalized(s: string, caseSens: bool)
  {
    forall c :: c in s ==> NormalizeChar(c, caseSens) == c
  }

  /** A segment `splitPath` can return: not empty, not "." or "..", no separator. */
  ghost predicate ValidSegment(seg: string)
  {
    seg != "" && seg != "." && seg != ".." && '/' !in seg && '\\' !in seg
  }

  /** Segments in the form `splitPath` produces them. */
  ghost predicate CanonicalSegments(segs: seq<string>, caseSens: bool)
  {
    forall k :: 0 <= k < |segs| ==> ValidSegment(segs[k]) && Normalized(segs[k], caseSens)
  }

  //--------------------------------------------------------------------------
  // normalizeNameSymbols

  /** Normalisation keeps the length, turns '\\' into '/', folds A-Z to a-z
      only on a case-insensitive instance, and changes nothing else. */
  lemma NormalizeSpec(name: string, caseSens: bool)
    ensures |Normalize(name, caseSens)| == |name|
    ensures forall i :: 0 <= i < |name| ==>
      (name[i] == '\\' ==> Normalize(name, caseSens)[i] == '/') &&
      (name[i] != '\\' && caseSens ==> Normalize(name, caseSens)[i] == name[i]) &&
      (!caseSens && 'A' <= name[i] <= 'Z' ==>
         Normalize(name, caseSens)[i] as int == name[i] as int + ('a' as int - 'A' as int)) &&
      (!caseSens && name[i] != '\\' && !('A' <= name[i] <= 'Z') ==> Normalize(name, caseSens)[i] == name[i])
  {
  }

  lemma NormalizeCharIdempotent(ch: char, caseSens: bool)
    ensures NormalizeChar(NormalizeChar(ch, caseSens), caseSens) == NormalizeChar(ch, caseSens)
  {
  }

  /** The result of normalisation is normalised: no '\\' and, when case is
      folded, no upper-case ASCII letter is left. */
  lemma NormalizeIsNormalized(name: string, caseSens: bool)
    ensures Normalized(Normalize(name, caseSens), caseSens)
    ensures '\\' !in Normalize(name, caseSens)
  {
    var r := Normalize(name, caseSens);
    forall c | c in r ensures NormalizeChar(c, caseSens) == c {
      var i :| 0 <= i < |r| && r[i] == c;
      NormalizeCharIdempotent(name[i], caseSens);
    }
  }

  /** Normalisation is the identity exactly on normalised strings, hence idempotent. */
  lemma NormalizeFixedPoint(s: string, caseSens: bool)
    ensures Normalize(s, caseSens) == s <==> Normalized(s, caseSens)
    ensures Normalize(Normalize(s, caseSens), caseSens) == Normalize(s, caseSens)
  {
    var r := Normalize(s, caseSens);
    if Normalized(s, caseSens) {
      forall i | 0 <= i < |s| ensures r[i] == s[i] {
        assert s[i] in s;
      }
    }
    NormalizeIsNormalized(s, caseSens);
    var rr := Normalize(r, caseSens);
    forall i | 0 <= i < |r| ensures rr[i] == r[i] {
      assert r[i] in r;
    }
  }

  /** `normalizeNameSymbols`: the loop over the by-value copy of the name. */
  method NormalizeNameSymbols(name: string, caseSens: bool) returns (r: string)
    ensures r == Normalize(name, caseSens)
  {
    r := name;
    var i := 0;
    while i < |r|
      invariant |r| == |name| && 0 <= i <= |r|
      invariant forall k :: 0 <= k < i ==> r[k] == NormalizeChar(name[k], caseSens)
      invariant forall k :: i <= k < |r| ==> r[k] == name[k]
    {
      var ch := r[i];
      if ch == '\\' {
        r := r[i := '/'];
      } else if !caseSens {
        r := r[i := ToLower(ch)];
      }
      i := i + 1;
    }
  }

  //--------------------------------------------------------------------------
  // splitPath

  /** The '/'-separated pieces of `s`, empty pieces included: the reference
      definition of what the character loop of `splitPath` accumulates. */
  function Pieces(s: string): (r: seq<string>)
    ensures |r| >= 1
    ensures forall k :: 0 <= k < |r| ==> '/' !in r[k]
    ensures forall k, c :: 0 <= k < |r| && c in r[k] ==> c in s
  {
    if s == [] then [[]]
    else
      assert forall c :: c in s[1..] ==> c in s;
      if s[0] == '/' then [[]] + Pieces(s[1..])
      else
      var rest := Pieces(s[1..]);
      [[s[0]] + rest[0]] + rest[1..]
  }

  /** The `pushBuf` lambda of `splitPath`: drops "" and ".", lets ".." remove
      the last kept segment (or nothing), keeps anything else. */
  function PushSegment(res: seq<string>, buf: string): (r: seq<string>)
    ensures buf == "" || buf == "." ==> r == res
    ensures buf == ".." && res == [] ==> r == []
    ensures buf == ".." && res != [] ==> r + [res[|res| - 1]] == res
    ensures buf != "" && buf != "." && buf != ".." ==> r == res + [buf]
  {
    if buf == "" || buf == "." then res
    else if buf == ".." then (if res == [] then res else res[..|res| - 1])
    else res + [buf]
  }

  /** Pushes the pieces one after the other. */
  function Resolve(res: seq<string>, pieces: seq<string>): seq<string>
    decreases |pieces|
  {
    if pieces == [] then res else Resolve(PushSegment(res, pieces[0]), pieces[1..])
  }

  /** Specification of `splitPath`. */
  function Split(path: string, caseSens: bool): seq<string>
  {
    Resolve([], Pieces(Normalize(path, caseSens)))
  }

  /** The pending buffer `buf` glued in front of the first remaining piece. */
  function AppendFirst(buf: string, pieces: seq<string>): seq<string>
    requires |pieces| >= 1
  {
    [buf + pieces[0]] + pieces[1..]
  }

  lemma AppendFirstEmpty(pieces: seq<string>)
    requires |pieces| >= 1
    ensures AppendFirst("", pieces) == pieces
  {
    assert "" + pieces[0] == pieces[0];
    assert [pieces[0]] + pieces[1..] == pieces;
  }

  /** `splitPath`: normalise, then scan the characters, pushing the buffer at
      every '/' and once more at the end. */
  method SplitPath(path: string, caseSens: bool) returns (res: seq<string>)
    ensures res == Split(path, caseSens)
  {
    var s := NormalizeNameSymbols(path, caseSens);
    res := [];
    var buf := "";
    var i := 0;
    assert s[0..] == s;
    AppendFirstEmpty(Pieces(s));
    while i < |s|
      invariant 0 <= i <= |s|
      invariant Resolve(res, AppendFirst(buf, Pieces(s[i..]))) == Resolve([], Pieces(s))
    {
      var ch := s[i];
      var rest := Pieces(s[i + 1..]);
      assert s[i..][1..] == s[i + 1..];
      if ch == '/' {
        assert Pieces(s[i..]) == [[]] + rest;
        var pending := AppendFirst(buf, Pieces(s[i..]));
        assert pending[0] == buf && pending[1..] == rest;
        AppendFirstEmpty(rest);
        res := PushSegment(res, buf);
        buf := "";
      } else {
        assert Pieces(s[i..]) == [[ch] + rest[0]] + rest[1..];
        assert buf + ([ch] + rest[0]) == (buf + [ch]) + rest[0];
        buf := buf + [ch];
      }
      i := i + 1;
    }
    assert s[i..] == [];
    var last := AppendFirst(buf, Pieces(s[i..]));
    assert buf + [] == buf;
    assert last == [buf];
    assert Resolve(res, last) == Resolve(PushSegment(res, buf), []);
    res := PushSegment(res, buf);
  }

  /** Pushing pieces that hold no '/' and are normalised keeps the segment
      list canonical. */
  lemma {:induction false} ResolveKeepsCanonical(res: seq<string>, pieces: seq<string>, caseSens: bool)
    requires CanonicalSegments(res, caseSens)
    requires forall k :: 0 <= k < |pieces| ==> '/' !in pieces[k] && Normalized(pieces[k], caseSens)
    ensures CanonicalSegments(Resolve(res, pieces), caseSens)
    decreases |pieces|
  {
    if pieces != [] {
      var p := pieces[0];
      var next := PushSegment(res, p);
      if p != "" && p != "." && p != ".." {
        assert NormalizeChar('\\', caseSens) == '/';
        assert '\\' !in p;
        assert next == res + [p];
      }
      assert CanonicalSegments(next, caseSens);
      ResolveKeepsCanonical(next, pieces[1..], caseSens);
    }
  }

  /** Every segment `splitPath` returns is non-empty, is neither "." nor "..",
      contains no '/' or '\\', and is already normalised for the instance. */
  lemma SplitIsCanonical(path: string, caseSens: bool)
    ensures CanonicalSegments(Split(path, caseSens), caseSens)
  {
    var s := Normalize(path, caseSens);
    NormalizeIsNormalized(path, caseSens);
    var pieces := Pieces(s);
    forall k | 0 <= k < |pieces| ensures '/' !in pieces[k] && Normalized(pieces[k], caseSens) {
      forall c | c in pieces[k] ensures NormalizeChar(c, caseSens) == c {
        assert c in s;
      }
    }
    ResolveKeepsCanonical([], pieces, caseSens);
  }

  /** Pushing valid segments only appends them. */
  lemma {:induction false} ResolveValid(res: seq<string>, segs: seq<string>)
    requires forall k :: 0 <= k < |segs| ==> ValidSegment(segs[k])
    ensures Resolve(res, segs) == res + segs
    decreases |segs|
  {
    if segs != [] {
      ResolveValid(res + [segs[0]], segs[1..]);
      assert res + [segs[0]] + segs[1..] == res + segs;
    }
  }

  /** Normalised strings stay normalised when concatenated. */
  lemma NormalizedConcat(x: string, y: string, caseSens: bool)
    requires Normalized(x, caseSens) && Normalized(y, caseSens)
    ensures Normalized(x + y, caseSens)
  {
    forall ch | ch in x + y ensures NormalizeChar(ch, caseSens) == ch {
      assert ch in x || ch in y;
    }
  }

  /** Separators and dots are left alone by normalisation. */
  lemma DotsNormalized(s: string, caseSens: bool)
    requires forall i :: 0 <= i < |s| ==> s[i] == '/' || s[i] == '.'
    ensures Normalized(s, caseSens)
  {
    forall ch | ch in s ensures NormalizeChar(ch, caseSens) == ch {
      assert ch == '/' || ch == '.';
    }
  }

  /** The pieces of `a/./b/../c`. */
  lemma DotAndParentPieces(a: string, b: string, c: string)
    requires '/' !in a && '/' !in b && '/' !in c
    ensures Pieces(a + "/./" + b + "/../" + c) == [a, ".", b, "..", c]
  {
    assert a + "/./" + b + "/../" + c == a + "/" + (("." + "/" + (b + "/" + (".." + "/" + c))));
    PiecesCons("..", c);
    PiecesOfSegment(c);
    PiecesCons(b, ".." + "/" + c);
    PiecesCons(".", b + "/" + (".." + "/" + c));
    PiecesCons(a, "." + "/" + (b + "/" + (".." + "/" + c)));
  }

  /** A "." segment is dropped and a ".." segment removes the segment kept
      just before it: `a/./b/../c` splits to `[a, c]`. */
  lemma SplitDotAndParent(a: string, b: string, c: string, caseSens: bool)
    requires CanonicalSegments([a, b, c], caseSens)
    ensures Split(a + "/./" + b + "/../" + c, caseSens) == [a, c]
  {
    var ws := [a, b, c];
    assert ws[0] == a && ws[1] == b && ws[2] == c;
    assert ValidSegment(a) && ValidSegment(b) && ValidSegment(c);
    var p := a + "/./" + b + "/../" + c;
    DotsNormalized("/./", caseSens);
    DotsNormalized("/../", caseSens);
    NormalizedConcat(a, "/./", caseSens);
    NormalizedConcat(a + "/./", b, caseSens);
    NormalizedConcat(a + "/./" + b, "/../", caseSens);
    NormalizedConcat(a + "/./" + b + "/../", c, caseSens);
    NormalizeFixedPoint(p, caseSens);
    DotAndParentPieces(a, b, c);
    var pieces := [a, ".", b, "..", c];
    assert PushSegment([], a) == [a];
    assert PushSegment([a], b) == [a, b];
    assert PushSegment([a, b], "..") == [a];
    assert PushSegment([a], c) == [a, c];
    assert Resolve([], pieces) == Resolve([a], pieces[1..]);
    assert Resolve([a], pieces[1..]) == Resolve([a], pieces[2..]);
    assert Resolve([a], pieces[2..]) == Resolve([a, b], pieces[3..]);
    assert Resolve([a, b], pieces[3..]) == Resolve([a], pieces[4..]);
    assert Resolve([a], pieces[4..]) == Resolve([a, c], []);
  }

  /** A leading ".." with nothing to pop is dropped without error:
      `../x` splits to `[x]`. */
  lemma SplitLeadingParent(x: string, caseSens: bool)
    requires CanonicalSegments([x], caseSens)
    ensures Split("../" + x, caseSens) == [x]
  {
    var ws := [x];
    assert ws[0] == x && ValidSegment(x);
    var p := "../" + x;
    assert p == ".." + "/" + x;
    DotsNormalized("../", caseSens);
    NormalizedConcat("../", x, caseSens);
    NormalizeFixedPoint(p, caseSens);
    PiecesCons("..", x);
    PiecesOfSegment(x);
    var pieces := ["..", x];
    assert Pieces(p) == pieces;
    assert PushSegment([], "..") == [];
    assert PushSegment([], x) == [x];
    assert Resolve([], pieces) == Resolve([], pieces[1..]);
    assert Resolve([], pieces[1..]) == Resolve([x], []);
  }

  //--------------------------------------------------------------------------
  // mergePath

  /** Specification of `mergePath`: the segments with one '/' between
      neighbours and none at either end. */
  function Join(parts: seq<string>): string
  {
    if |parts| == 0 then ""
    else if |parts| == 1 then parts[0]
    else Join(parts[..|parts| - 1]) + "/" + parts[|parts| - 1]
  }

  /** `mergePath` of nothing is "", of one segment is that segment, and adding
      a segment adds exactly one '/' and the segment. */
  lemma JoinShape(parts: seq<string>, w: string)
    ensures Join([]) == ""
    ensures Join([w]) == w
    ensures |parts| >= 1 ==> Join(parts + [w]) == Join(parts) + "/" + w
  {
    if |parts| >= 1 {
      assert (parts + [w])[..|parts|] == parts;
    }
  }

  /** `mergePath`: the first segment, then '/' and each further segment. */
  method MergePath(parts: seq<string>) returns (res: string)
    ensures res == Join(parts)
  {
    res := "";
    if |parts| == 0 {
      return;
    }
    res := parts[0];
    var i := 1;
    assert parts[..1] == [parts[0]];
    while i < |parts|
      invariant 1 <= i <= |parts|
      invariant res == Join(parts[..i])
    {
      assert parts[..i + 1][..i] == parts[..i];
      res := res + "/" + parts[i];
      i := i + 1;
    }
    assert parts[..i] == parts;
  }

  /** Splitting on '/' distributes over a '/'. */
  lemma {:induction false} PiecesAppend(x: string, y: string)
    ensures Pieces(x + "/" + y) == Pieces(x) + Pieces(y)
    decreases |x|
  {
    var s := x + "/" + y;
    if x == [] {
      assert s == "/" + y;
      assert s[1..] == y;
    } else {
      assert s[0] == x[0];
      assert s[1..] == x[1..] + "/" + y;
      PiecesAppend(x[1..], y);
    }
  }

  /** A string without '/' followed by '/' is one piece in front of the rest. */
  lemma PiecesCons(x: string, y: string)
    requires '/' !in x
    ensures Pieces(x + "/" + y) == [x] + Pieces(y)
  {
    PiecesAppend(x, y);
    PiecesOfSegment(x);
  }

  /** A string without '/' is a single piece. */
  lemma {:induction false} PiecesOfSegment(w: string)
    requires '/' !in w
    ensures Pieces(w) == [w]
    decreases |w|
  {
    if w != [] {
      assert w[0] in w;
      assert forall c :: c in w[1..] ==> c in w;
      PiecesOfSegment(w[1..]);
      assert [w[0]] + w[1..] == w;
    }
  }

  /** Round trip: splitting the joined segments on '/' gives the segments
      back, provided none of them contains '/'. */
  lemma {:induction false} PiecesOfJoin(ws: seq<string>)
    requires |ws| >= 1
    requires forall k :: 0 <= k < |ws| ==> '/' !in ws[k]
    ensures Pieces(Join(ws)) == ws
    decreases |ws|
  {
    var n := |ws|;
    if n == 1 {
      PiecesOfSegment(ws[0]);
    } else {
      var init := ws[..n - 1];
      PiecesOfJoin(init);
      PiecesAppend(Join(init), ws[n - 1]);
      PiecesOfSegment(ws[n - 1]);
      assert init + [ws[n - 1]] == ws;
    }
  }

  /** Joining normalised segments gives a normalised string. */
  lemma {:induction false} JoinNormalized(ws: seq<string>, caseSens: bool)
    requires forall k :: 0 <= k < |ws| ==> Normalized(ws[k], caseSens)
    ensures Normalized(Join(ws), caseSens)
    decreases |ws|
  {
    var n := |ws|;
    if n > 1 {
      JoinNormalized(ws[..n - 1], caseSens);
      assert NormalizeChar('/', caseSens) == '/';
    }
  }

  /** Round trip: `splitPath(mergePath(ws)) == ws` for segments already in
      canonical form (normalised, no ".", "..", empty or separator). */
  lemma SplitOfJoin(ws: seq<string>, caseSens: bool)
    requires CanonicalSegments(ws, caseSens)
    ensures Split(Join(ws), caseSens) == ws
  {
    var m := Join(ws);
    JoinNormalized(ws, caseSens);
    NormalizeFixedPoint(m, caseSens);
    if ws == [] {
      assert Pieces(m) == [[]];
      assert Resolve([], [[]]) == Resolve([], []);
    } else {
      PiecesOfJoin(ws);
      ResolveValid([], ws);
    }
  }

  /** Normalisation through a join is idempotent:
      `splitPath(mergePath(splitPath(p))) == splitPath(p)`. */
  lemma SplitIdempotent(path: string, caseSens: bool)
    ensures Split(Join(Split(path, caseSens)), caseSens) == Split(path, caseSens)
  {
    SplitIsCanonical(path, caseSens);
    SplitOfJoin(Split(path, caseSens), caseSens);
  }
}
