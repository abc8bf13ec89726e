/**
 From a request path to an open file. The file system is an arbitrary set of answers; what is
 proved is which places the resolver can ask it to open.
 */
module Resolver {
  import opened Bytes
  import opened Paths

  const PARENT: bytes := [DOT, DOT]

  /** A directory entry's name. */
  type Name = s: bytes | s != [] && SLASH !in s && s != [DOT] && s != [DOT, DOT] witness [0x61]
  /** A cleaned absolute path. */
  type Place = seq<Name>

  type int63 = n: int | 0 <= n <= MAX_INT64
  /** What the MIME table gives: a short text. */
  type MimeType = s: bytes | |s| <= 255

  const INDEX: bytes := Ascii("index.html")

  /** Errors as missingOr sorts them: an ordinary miss, or a real problem. */
  datatype Fault = Missing | Trouble

  /** What the handle of an open file says about it. */
  datatype Info = Info(regular: bool, size: int63, mime: MimeType)

  /** An open file; reading it may yield fewer bytes than its size says, or more. */
  datatype OpenFile = OpenFile(info: Option<Info>, content: bytes)

  datatype FileSystem = FileSystem(
    resolveLinks: Place -> Result<Place, Fault>,
    isDirectory: Place -> Result<bool, Fault>,
    open: Place -> Result<OpenFile, Fault>)

  datatype Lookup =
    | BadPath
    | NotFound
    | Failure
    | Found(size: int63, mime: MimeType, content: bytes)

  // ---- joining ----

  /** One step of filepath.Clean, on segments. */
  function CleanStep(at: Place, seg: bytes): Place
    requires SLASH !in seg
  {
    if seg == [] || seg == [DOT] then at
    else if seg == PARENT then (if at == [] then [] else at[..|at| - 1])
    else at + [seg]
  }

  /** filepath.Join of a cleaned path and some segments. */
  function Join(at: Place, segs: seq<bytes>): Place
    requires forall s | s in segs :: SLASH !in s
    decreases segs
  {
    if segs == [] then at else Join(CleanStep(at, segs[0]), segs[1..])
  }

  function NonEmpty(segs: seq<bytes>): seq<bytes> {
    if segs == [] then [] else (if segs[0] == [] then [] else [segs[0]]) + NonEmpty(segs[1..])
  }

  function TrimLeft(p: bytes): bytes {
    if p != [] && p[0] == SLASH then TrimLeft(p[1..]) else p
  }

  function TrimRight(p: bytes): bytes {
    if p != [] && p[|p| - 1] == SLASH then TrimRight(p[..|p| - 1]) else p
  }

  /** The segments of an accepted path, in order, without the empty ones. */
  function Segments(p: bytes): (segs: seq<bytes>) {
    NonEmpty(SplitBytes(p, SLASH))
  }

  lemma {:induction false} NonEmptyAppend(a: seq<bytes>, b: seq<bytes>)
    ensures NonEmpty(a + b) == NonEmpty(a) + NonEmpty(b)
  {
    if a == [] {
      assert a + b == b;
    } else {
      NonEmptyAppend(a[1..], b);
      assert (a + b)[1..] == a[1..] + b;
      Assoc(if a[0] == [] then [] else [a[0]], NonEmpty(a[1..]), NonEmpty(b));
    }
  }

  lemma {:induction false} TrimLeftKeeps(p: bytes)
    ensures Segments(TrimLeft(p)) == Segments(p)
  {
    if p != [] && p[0] == SLASH {
      TrimLeftKeeps(p[1..]);
      assert SplitBytes(p, SLASH) == [[]] + SplitBytes(p[1..], SLASH);
      NonEmptyAppend([[]], SplitBytes(p[1..], SLASH));
      assert NonEmpty([[]]) == [];
    }
  }

  lemma {:induction false} SplitSnoc(p: bytes)
    ensures SplitBytes(p + [SLASH], SLASH) == SplitBytes(p, SLASH) + [[]]
    decreases |p|
  {
    hide IndexOf;
    var i := IndexOf(p, SLASH);
    IndexOfIs(p + [SLASH], SLASH, i);
    if i == |p| {
      assert (p + [SLASH])[..i] == p && (p + [SLASH])[i + 1..] == [];
      assert SplitBytes([], SLASH) == [[]];
    } else {
      SplitSnoc(p[i + 1..]);
      assert (p + [SLASH])[..i] == p[..i];
      assert (p + [SLASH])[i + 1..] == p[i + 1..] + [SLASH];
    }
  }

  lemma {:induction false} TrimRightKeeps(p: bytes)
    ensures Segments(TrimRight(p)) == Segments(p)
  {
    if p != [] && p[|p| - 1] == SLASH {
      var front := p[..|p| - 1];
      TrimRightKeeps(front);
      assert p == front + [SLASH];
      SplitSnoc(front);
      NonEmptyAppend(SplitBytes(front, SLASH), [[]]);
      assert NonEmpty([[]]) == [];
    }
  }

  predicate Harmless(segs: seq<bytes>) {
    forall s | s in segs :: SLASH !in s && s != [DOT] && s != PARENT
  }

  lemma {:induction false} JoinHarmless(at: Place, segs: seq<bytes>)
    requires Harmless(segs)
    ensures forall s | s in NonEmpty(segs) :: s in segs && s != []
    ensures Join(at, segs) == at + NonEmpty(segs)
    decreases segs
  {
    if segs == [] {
      assert at + NonEmpty(segs) == at;
    } else {
      var first, more := segs[0], segs[1..];
      assert first in segs && forall s | s in more :: s in segs;
      JoinHarmless(CleanStep(at, first), more);
      if first == [] {
        assert NonEmpty(segs) == NonEmpty(more);
      } else {
        var name: Name := first;
        Assoc(at, [name], NonEmpty(more));
      }
    }
  }

  /** An accepted path has no segment that means something other than a name. */
  lemma AcceptedIsHarmless(p: bytes)
    requires PathOk(p)
    ensures forall s | s in Segments(p) :: s != [] && SLASH !in s && s != [DOT] && s != PARENT
  {
    var parts := SplitBytes(p, SLASH);
    assert IndexOf(p, SLASH) == 0;
    assert parts == [p[..0]] + SplitBytes(p[1..], SLASH);
    forall s | s in parts ensures s == [] || SegmentOk(s) {
      if s != [] {
        assert s in SplitBytes(p[1..], SLASH);
      }
    }
    assert Harmless(parts);
    JoinHarmless([], parts);
  }

  /** Trimming, joining and cleaning add exactly the path's non-empty segments to the root. */
  lemma JoinAddsSegments(root: Place, p: bytes)
    requires PathOk(p)
    ensures var rel := SplitBytes(TrimRight(TrimLeft(p)), SLASH);
            && (forall s | s in Segments(p) :: s != [] && SLASH !in s && s != [DOT] && s != PARENT)
            && Join(root, rel) == root + Segments(p)
  {
    var rel := SplitBytes(TrimRight(TrimLeft(p)), SLASH);
    TrimLeftKeeps(p);
    TrimRightKeeps(TrimLeft(p));
    AcceptedIsHarmless(p);
    assert NonEmpty(rel) == Segments(p);
    forall s | s in rel ensures s != [DOT] && s != PARENT {
      if s != [] {
        InNonEmpty(rel, s);
      }
    }
    JoinHarmless(root, rel);
  }

  lemma InNonEmpty(segs: seq<bytes>, s: bytes)
    requires s in segs && s != []
    ensures s in NonEmpty(segs)
  {
    if segs[0] != s {
      assert s in segs[1..];
      InNonEmpty(segs[1..], s);
    }
  }

  // ---- containment ----

  function Ups(n: nat): (u: seq<bytes>)
    ensures |u| == n
    ensures forall i :: 0 <= i < n ==> u[i] == PARENT
  {
    if n == 0 then [] else [PARENT] + Ups(n - 1)
  }

  /** filepath.Rel of two cleaned absolute paths, as segments; equal paths give none. */
  function Rel(base: Place, target: Place): seq<bytes> {
    if base != [] && target != [] && base[0] == target[0] then Rel(base[1..], target[1..])
    else Ups(|base|) + target
  }

  predicate LeadsOut(rel: seq<bytes>) {
    rel != [] && rel[0] == PARENT
  }

  /** A relative path leads out exactly when the base is no segment prefix of the target. */
  lemma {:induction false} RelLeadsOut(base: Place, target: Place)
    ensures LeadsOut(Rel(base, target)) <==> !(base <= target)
  {
    if base != [] && target != [] && base[0] == target[0] {
      RelLeadsOut(base[1..], target[1..]);
      assert base == [base[0]] + base[1..] && target == [target[0]] + target[1..];
    } else if base == [] && target != [] {
      var first: Name := target[0];
      assert Rel(base, target)[0] == first;
    }
  }

  /** Where links lead, if that is still below the root. */
  function Contained(fs: FileSystem, root: Place, at: Place): Result<Place, Lookup> {
    match fs.resolveLinks(at)
    case Err(Missing) => Err(NotFound)
    case Err(Trouble) => Err(Failure)
    case Ok(t) => if root <= t then Ok(t) else Err(NotFound)
  }

  method Within(fs: FileSystem, root: Place, at: Place) returns (r: Result<Place, Lookup>)
    ensures r == Contained(fs, root, at)
  {
    var resolved := fs.resolveLinks(at);
    if resolved.Err? {
      return Err(MissingOr(resolved.error));
    }
    RelLeadsOut(root, resolved.value);
    if LeadsOut(Rel(root, resolved.value)) {
      return Err(NotFound);
    }
    return Ok(resolved.value);
  }

  function MissingOr(f: Fault): Lookup {
    if f == Missing then NotFound else Failure
  }

  // ---- opening ----

  function Opened(fs: FileSystem, target: Place): Lookup {
    match fs.open(target)
    case Err(f) => MissingOr(f)
    case Ok(file) =>
      if file.info.None? then Failure
      else if !file.info.value.regular then NotFound
      else Found(file.info.value.size, file.info.value.mime, file.content)
  }

  /** The segments of an accepted path are names. */
  function Below(p: bytes): (below: Place)
    requires PathOk(p)
    ensures below == Segments(p)
  {
    AcceptedIsHarmless(p);
    var segs := Segments(p);
    assert forall i :: 0 <= i < |segs| ==> segs[i] in segs;
    segs
  }

  /** The place a request path names, as the specification describes the mapping. */
  function Resolve(fs: FileSystem, root: Place, p: bytes): Lookup {
    if !PathOk(p) then BadPath
    else
      var target := Contained(fs, root, root + Below(p));
      if target.Err? then target.error
      else
        match fs.isDirectory(target.value)
        case Err(f) => MissingOr(f)
        case Ok(true) =>
          var index := Contained(fs, root, target.value + [INDEX]);
          if index.Err? then index.error else Opened(fs, index.value)
        case Ok(false) =>
          if p[|p| - 1] == SLASH then NotFound else Opened(fs, target.value)
  }

  /** The steps of open; `tried` records every place handed to os.Open. */
  method Open(fs: FileSystem, root: Place, p: bytes) returns (r: Lookup, ghost tried: set<Place>)
    ensures r == Resolve(fs, root, p)
    ensures forall t | t in tried :: root <= t
    ensures !PathOk(p) ==> tried == {}
  {
    hide Join, SplitBytes, TrimLeft, TrimRight, NonEmpty;
    tried := {};
    var ok := CheckPath(p);
    if !ok {
      return BadPath, tried;
    }
    var trailingSlash := p[|p| - 1] == SLASH;
    var rel := SplitBytes(TrimRight(TrimLeft(p)), SLASH);
    JoinAddsSegments(root, p);
    var target := Within(fs, root, Join(root, rel));
    if target.Err? {
      return target.error, tried;
    }
    var info := fs.isDirectory(target.value);
    if info.Err? {
      return MissingOr(info.error), tried;
    }
    if info.value {
      IndexIsName();
      target := Within(fs, root, Join(target.value, [INDEX]));
      if target.Err? {
        return target.error, tried;
      }
    } else if trailingSlash {
      return NotFound, tried;
    }
    tried := {target.value};
    var file := fs.open(target.value);
    if file.Err? {
      return MissingOr(file.error), tried;
    }
    if file.value.info.None? {
      return Failure, tried;
    }
    if !file.value.info.value.regular {
      return NotFound, tried;
    }
    return Found(file.value.info.value.size, file.value.info.value.mime, file.value.content), tried;
  }

  lemma IndexIsName()
    ensures INDEX != [] && SLASH !in INDEX && INDEX != [DOT] && INDEX != PARENT
    ensures forall at: Place :: Join(at, [INDEX]) == at + [INDEX]
  {
    assert INDEX[0] != DOT;
    forall at: Place ensures Join(at, [INDEX]) == at + [INDEX] {
      assert [INDEX][1..] == [];
      assert Join(at, [INDEX]) == Join(CleanStep(at, INDEX), []);
    }
  }
}
