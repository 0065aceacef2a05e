/**
 * The sprite manifest and the path rule of the sprite viewer (script.js).
 *
 * The manifest maps each section name to a list of file names, except the
 * section "Clothing", which maps subsection names to lists. A thumbnail and
 * the image the viewer loads for it are both found at
 * `sprites/<section>/<file>`, or `sprites/Clothing/<subsection>/<file>`.
 */
module Sprites {

  /** The one section whose files are grouped into subsections. */
  const Clothing: string := "Clothing"

  /** The value a manifest gives a section: a list of file names, or a map
      from subsection names to lists of file names. */
  datatype Entry = Files(files: seq<string>) | Sub(lists: map<string, seq<string>>)

  type Manifest = map<string, Entry>

  /** The two ways the lookup throws a TypeError in the script. */
  datatype LookupError =
    | ClothingMissing  // `spritesManifest["Clothing"]` is undefined and is indexed
    | NotAList         // a section other than "Clothing" holds a map, which has no `forEach`

  /** The file list of the current selection, or the error the lookup throws. */
  datatype Listing = Listed(files: seq<string>) | Thrown(error: LookupError)

  /** The manifest holds `files` as the list of this section (and subsection). */
  ghost predicate ListedUnder(m: Manifest, section: string, sub: string, files: seq<string>) {
    if section == Clothing then
      Clothing in m && m[Clothing].Sub? && sub in m[Clothing].lists && m[Clothing].lists[sub] == files
    else
      section in m && m[section] == Files(files)
  }

  /** The file list the viewer shows for a section and subsection: the
      manifest's list where there is one, the empty list (`|| []`) where the
      key is absent, and the script's TypeError where the shape is wrong. */
  function FileList(m: Manifest, section: string, sub: string): (r: Listing)
    ensures r.Thrown? <==>
              (section == Clothing && Clothing !in m) ||
              (section != Clothing && section in m && m[section].Sub?)
    ensures r.Thrown? ==> (r.error == ClothingMissing <==> section == Clothing)
    ensures forall files :: ListedUnder(m, section, sub, files) ==> r == Listed(files)
    ensures r.Listed? && !ListedUnder(m, section, sub, r.files) ==> r.files == []
  {
    if section == Clothing then
      if Clothing !in m then Thrown(ClothingMissing)
      else match m[Clothing]
        case Sub(lists) => Listed(if sub in lists then lists[sub] else [])
        case Files(_) => Listed([])  // a subsection name is not a property of a list
    else if section !in m then Listed([])
    else match m[section]
      case Files(files) => Listed(files)
      case Sub(_) => Thrown(NotAList)
  }

  // ---------------------------------------------------------------------
  // Paths

  /** A path segment: it contains no separator. */
  predicate NoSlash(x: string) {
    '/' !in x
  }

  /** The segments joined with '/'. */
  function JoinPath(parts: seq<string>): string
    decreases |parts|
  {
    if |parts| == 0 then ""
    else if |parts| == 1 then parts[0]
    else parts[0] + "/" + JoinPath(parts[1..])
  }

  /** The path cut at every '/'; always at least one segment. */
  function SplitPath(p: string): (parts: seq<string>)
    ensures |parts| >= 1
    decreases |p|
  {
    if |p| == 0 then [""]
    else
      var rest := SplitPath(p[1..]);
      if p[0] == '/' then [""] + rest
      else [[p[0]] + rest[0]] + rest[1..]
  }

  /** A segment followed by '/' splits off as one part. */
  lemma {:induction false} SplitSegment(x: string, y: string)
    requires NoSlash(x)
    ensures SplitPath(x + "/" + y) == [x] + SplitPath(y)
    decreases |x|
  {
    if |x| == 0 {
      assert x + "/" + y == "/" + y;
      assert ("/" + y)[1..] == y;
    } else {
      var p := x + "/" + y;
      assert p[0] == x[0];
      assert p[1..] == x[1..] + "/" + y;
      SplitSegment(x[1..], y);
      assert [x[0]] + x[1..] == x;
    }
  }

  /** A string without '/' is a single segment. */
  lemma {:induction false} SplitSingle(x: string)
    requires NoSlash(x)
    ensures SplitPath(x) == [x]
    decreases |x|
  {
    if |x| > 0 {
      SplitSingle(x[1..]);
      assert [x[0]] + x[1..] == x;
    }
  }

  /** Splitting a join of slash-free segments gives the segments back. */
  lemma {:induction false} SplitJoin(parts: seq<string>)
    requires |parts| >= 1
    requires forall i :: 0 <= i < |parts| ==> NoSlash(parts[i])
    ensures SplitPath(JoinPath(parts)) == parts
    decreases |parts|
  {
    if |parts| == 1 {
      SplitSingle(parts[0]);
    } else {
      SplitSegment(parts[0], JoinPath(parts[1..]));
      SplitJoin(parts[1..]);
      assert [parts[0]] + parts[1..] == parts;
    }
  }

  /** The folder of a selection, with its trailing '/'. */
  function FolderPath(section: string, sub: string): string {
    if section == Clothing then "sprites/Clothing/" + sub + "/"
    else "sprites/" + section + "/"
  }

  /** The segments of the path of a file: "sprites", the section, the
      subsection for "Clothing" only, and the file. */
  function PathSegments(section: string, sub: string, file: string): seq<string> {
    if section == Clothing then ["sprites", Clothing, sub, file]
    else ["sprites", section, file]
  }

  /** The path of a sprite: both the thumbnail's `src` and the image the
      viewer loads. It is the segments of the selection joined by '/'. */
  function SpritePath(section: string, sub: string, file: string): (p: string)
    ensures |p| >= 8 && p[..8] == "sprites/"
  {
    FolderPath(section, sub) + file
  }

  /** Joining a segment in front of a non-empty list puts one '/' between. */
  lemma JoinFront(x: string, rest: seq<string>)
    requires |rest| >= 1
    ensures JoinPath([x] + rest) == x + "/" + JoinPath(rest)
  {
    assert ([x] + rest)[1..] == rest;
  }

  /** The path of a sprite is the selection's segments joined by '/'. */
  lemma SpritePathJoins(section: string, sub: string, file: string)
    ensures SpritePath(section, sub, file) == JoinPath(PathSegments(section, sub, file))
  {
    if section == Clothing {
      ClothingPathJoins(sub, file);
    } else {
      SectionPathJoins(section, file);
    }
  }

  /** The "Clothing" case of SpritePathJoins. */
  lemma ClothingPathJoins(sub: string, file: string)
    ensures FolderPath(Clothing, sub) + file == JoinPath(["sprites", Clothing, sub, file])
  {
    JoinFront(sub, [file]);
    assert [sub] + [file] == [sub, file];
    JoinFront(Clothing, [sub, file]);
    assert [Clothing] + [sub, file] == [Clothing, sub, file];
    JoinFront("sprites", [Clothing, sub, file]);
    assert ["sprites"] + [Clothing, sub, file] == ["sprites", Clothing, sub, file];
    assert "sprites/Clothing/" == "sprites" + "/" + Clothing + "/";
  }

  /** The case of SpritePathJoins for every other section. */
  lemma SectionPathJoins(section: string, file: string)
    requires section != Clothing
    ensures FolderPath(section, "") + file == JoinPath(["sprites", section, file])
  {
    JoinFront(section, [file]);
    assert [section] + [file] == [section, file];
    JoinFront("sprites", [section, file]);
    assert ["sprites"] + [section, file] == ["sprites", section, file];
  }

  /** When section, subsection and file hold no '/', cutting the path at
      '/' gives back exactly the selection's segments. */
  lemma SpritePathSegments(section: string, sub: string, file: string)
    requires NoSlash(section) && NoSlash(file)
    requires section == Clothing ==> NoSlash(sub)
    ensures SplitPath(SpritePath(section, sub, file)) == PathSegments(section, sub, file)
  {
    var parts := PathSegments(section, sub, file);
    assert NoSlash("sprites") && NoSlash(Clothing);
    assert forall i :: 0 <= i < |parts| ==> NoSlash(parts[i]);
    SpritePathJoins(section, sub, file);
    SplitJoin(parts);
  }

  /** Distinct slash-free selections have distinct paths: the path
      determines the section, the file and, for "Clothing", the subsection. */
  lemma SpritePathDetermines(section: string, sub: string, file: string,
                             section': string, sub': string, file': string)
    requires NoSlash(section) && NoSlash(file) && (section == Clothing ==> NoSlash(sub))
    requires NoSlash(section') && NoSlash(file') && (section' == Clothing ==> NoSlash(sub'))
    requires SpritePath(section, sub, file) == SpritePath(section', sub', file')
    ensures section == section' && file == file'
    ensures section == Clothing ==> sub == sub'
  {
    SpritePathSegments(section, sub, file);
    SpritePathSegments(section', sub', file');
    var parts, parts' := PathSegments(section, sub, file), PathSegments(section', sub', file');
    assert parts == parts';
    assert (section == Clothing) == (section' == Clothing) by {
      assert |parts| == |parts'|;
    }
  }

  /** The two worked examples of the path rule. */
  lemma PathExamples()
    ensures SpritePath("Hats", "", "a.png") == "sprites/Hats/a.png"
    ensures SpritePath(Clothing, "Shirts", "x.png") == "sprites/Clothing/Shirts/x.png"
    ensures FileList(map["Hats" := Files(["a.png", "b.png"])], "Hats", "") == Listed(["a.png", "b.png"])
    ensures FileList(map[Clothing := Sub(map["Shirts" := ["x.png"]])], Clothing, "Shirts") == Listed(["x.png"])
  {
  }
}
