/** `Version(u32, u32, u32)` of the local version scan: its total order,
    its `"a.b.c"` rendering, and how a file stem is read as a version. */
module LocalVersions {
  import opened Wrappers
  import opened Decimal
  import opened Strings

  datatype Version = Version(major: U32, minor: U32, patch: U32)

  datatype Ordering = Less | Equal | Greater {
    function Reverse(): Ordering {
      match this
      case Less => Greater
      case Equal => Equal
      case Greater => Less
    }
  }

  /** Why a directory entry, or the whole scan, yields no version: a part
      `u32::from_str` rejects (the `?` error), a stem with fewer than three
      parts (the panic at `parts[1]` or `parts[2]`), or a directory with no
      entries (the panic at `last().unwrap()`). */
  datatype ScanError = InvalidComponent | MissingComponent | EmptyDirectory

  function CompareU32(a: U32, b: U32): Ordering {
    if a < b then Less else if a == b then Equal else Greater
  }

  /** `Ord::cmp`: the tuple `(major, minor, patch)` compared lexicographically. */
  function Compare(a: Version, b: Version): (r: Ordering)
    ensures r == Equal <==> a == b
  {
    match CompareU32(a.major, b.major)
    case Equal =>
      (match CompareU32(a.minor, b.minor)
       case Equal => CompareU32(a.patch, b.patch)
       case other => other)
    case other => other
  }

  predicate AtMost(a: Version, b: Version) {
    Compare(a, b) != Greater
  }

  /** `Compare` is a total order whose equality is structural equality, as
      `Ord` must agree with the derived `Eq`. */
  lemma CompareIsTotalOrder(a: Version, b: Version, c: Version)
    ensures Compare(a, b) == Equal <==> a == b
    ensures Compare(b, a) == Compare(a, b).Reverse()
    ensures AtMost(a, b) || AtMost(b, a)
    ensures AtMost(a, b) && AtMost(b, c) ==> AtMost(a, c)
  {
  }

  /** `Compare` is numeric per component: the first component that differs
      decides, whatever the lengths of the renderings. */
  lemma CompareNumeric(a: Version, b: Version)
    ensures Compare(a, b) == Less <==>
              a.major < b.major
              || (a.major == b.major && a.minor < b.minor)
              || (a.major == b.major && a.minor == b.minor && a.patch < b.patch)
  {
  }

  /** `1.10.0 > 1.2.10 > 1.2.3`: components compare as numbers, not text. */
  lemma CompareExamples()
    ensures Compare(Version(1, 10, 0), Version(1, 2, 10)) == Greater
    ensures Compare(Version(1, 2, 10), Version(1, 2, 3)) == Greater
  {
  }

  /** `Display`: `"{major}.{minor}.{patch}"`. */
  function Render(v: Version): (r: string)
    ensures |r| >= 5
    ensures forall i :: 0 <= i < |r| ==> IsDigit(r[i]) || r[i] == '.'
  {
    Show(v.major) + "." + Show(v.minor) + "." + Show(v.patch)
  }

  /** One stem of a directory entry read as a version: the stem is split on
      `.`, and the first three parts are parsed left to right; a parse
      failure is reported before a later part is looked up, and parts after
      the third are ignored. */
  function ParseStem(stem: string): (r: Result<Version, ScanError>)
    ensures var parts := Split(stem, '.');
            r.Ok? <==> |parts| >= 3 && ParseU32(parts[0]).Some? && ParseU32(parts[1]).Some? && ParseU32(parts[2]).Some?
    ensures var parts := Split(stem, '.');
            r.Ok? ==> r.value == Version(ParseU32(parts[0]).value, ParseU32(parts[1]).value, ParseU32(parts[2]).value)
    ensures var parts := Split(stem, '.');
            r.Err? ==> (r.error == InvalidComponent <==> exists i :: 0 <= i < 3 && i < |parts| && ParseU32(parts[i]).None?)
    ensures r.Err? ==> r.error != EmptyDirectory
  {
    var parts := Split(stem, '.');
    match ParseU32(parts[0])
    case None => Err(InvalidComponent)
    case Some(major) =>
      if |parts| < 2 then Err(MissingComponent)
      else match ParseU32(parts[1])
      case None => Err(InvalidComponent)
      case Some(minor) =>
        if |parts| < 3 then Err(MissingComponent)
        else match ParseU32(parts[2])
        case None => Err(InvalidComponent)
        case Some(patch) => Ok(Version(major, minor, patch))
  }

  /** Round trip: reading the rendering of a version gives that version back,
      and so does reading it with further dot-separated parts after it. */
  lemma ParseRender(v: Version, rest: string)
    ensures ParseStem(Render(v)) == Ok(v)
    ensures ParseStem(Render(v) + "." + rest) == Ok(v)
  {
    SplitRendering(v, rest);
    ParseFromParts(Render(v), v);
    ParseFromParts(Render(v) + "." + rest, v);
  }

  lemma ParseFromParts(stem: string, v: Version)
    requires |Split(stem, '.')| >= 3
    requires Split(stem, '.')[0] == Show(v.major)
    requires Split(stem, '.')[1] == Show(v.minor)
    requires Split(stem, '.')[2] == Show(v.patch)
    ensures ParseStem(stem) == Ok(v)
  {
    ParseShow(v.major);
    ParseShow(v.minor);
    ParseShow(v.patch);
  }

  /** The rendering splits into exactly the three component renderings. */
  lemma SplitRendering(v: Version, rest: string)
    ensures Split(Render(v), '.') == [Show(v.major), Show(v.minor), Show(v.patch)]
    ensures Split(Render(v) + "." + rest, '.')
            == [Show(v.major), Show(v.minor), Show(v.patch)] + Split(rest, '.')
  {
    var a, b, c := Show(v.major), Show(v.minor), Show(v.patch);
    DigitsHaveNoDot(a);
    DigitsHaveNoDot(b);
    DigitsHaveNoDot(c);
    SplitThree(a, b, c, '.');
    SplitThreeThen(a, b, c, rest, '.');
    assert Render(v) == a + ['.'] + b + ['.'] + c;
  }

  lemma DigitsHaveNoDot(s: string)
    requires Canonical(s)
    ensures '.' !in s
  {
  }

  /** A stem with fewer than three dot-separated parts never yields a
      version: it fails on the missing part when every part present is a
      number, and on the first part that is not a number otherwise. */
  lemma ShortStemFails(stem: string)
    requires '.' !in stem || |Split(stem, '.')| < 3
    ensures var parts := Split(stem, '.');
            && |parts| < 3
            && (ParseStem(stem) == Err(MissingComponent) <==> forall i :: 0 <= i < |parts| ==> ParseU32(parts[i]).Some?)
            && (ParseStem(stem) == Err(InvalidComponent) <==> exists i :: 0 <= i < |parts| && ParseU32(parts[i]).None?)
  {
    if '.' !in stem {
      SplitWhole(stem, '.');
    }
  }
}
