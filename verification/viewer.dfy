/**
 * The selection state of the sprite viewer (script.js): the thumbnail strip,
 * the current file, the status readout, the visibility of the subsection
 * control, and the effects on the canvas.
 *
 * The DOM and the canvas are replaced by fields. Loading a sprite is
 * recorded as a request for its path; drawing it once it arrives is not
 * part of this model. Clearing the canvas is recorded as well, so
 * `effects` is the history of what the viewer did to the canvas.
 */
module Viewer {
  import opened Sprites

  /** One `<img>` in the thumbnail strip: the file name (also its `alt`
      text), its `src`, and whether it carries the class "selected". */
  datatype Thumbnail = Thumbnail(file: string, src: string, selected: bool)

  /** What the viewer does to the canvas: `clearCanvas()`, or
      `loadSprite(file)` starting a load of the image at `path`. */
  datatype Effect = Cleared | LoadRequested(path: string)

  /** How a handler ended: the handlers are not wired yet, the strip was
      rebuilt, or the rebuild threw a TypeError. */
  datatype Outcome = Unwired | Rebuilt | Threw(error: LookupError)

  class SpriteViewer {
    var manifest: Manifest          // `spritesManifest`
    var wired: bool                 // `init()` has run and the handlers listen
    var section: string             // value of the section `<select>`
    var subsection: string          // value of the subsection `<select>`
    var subsectionVisible: bool     // `display` of the subsection control is not "none"
    var sectionText: string         // text of the selected-section span
    var subsectionText: string      // text of the selected-subsection span
    var thumbs: seq<Thumbnail>      // the `<img>` children of the thumbnail container
    var currentFileName: string
    var effects: seq<Effect>

    /** Thumbnail `i` is the one and only thumbnail marked selected. */
    predicate OnlySelected(i: int)
      reads this
    {
      0 <= i < |thumbs| && forall k :: 0 <= k < |thumbs| ==> (thumbs[k].selected <==> k == i)
    }

    /** No thumbnail exists before the handlers are wired; whenever the
        strip is not empty exactly one thumbnail is selected, and it shows
        the current file. */
    ghost predicate Valid()
      reads this
    {
      && (!wired ==> thumbs == [])
      && (thumbs != [] ==> exists i :: OnlySelected(i) && thumbs[i].file == currentFileName)
    }

    /** The strip holds one thumbnail per file, in order, each with the
        file's sprite path as its `src`. */
    predicate Shows(files: seq<string>)
      reads this
    {
      && |thumbs| == |files|
      && forall k :: 0 <= k < |thumbs| ==>
           thumbs[k].file == files[k] && thumbs[k].src == SpritePath(section, subsection, files[k])
    }

    /** The strip is the one the current manifest, section and subsection call for. */
    predicate Synced()
      reads this
    {
      FileList(manifest, section, subsection).Listed? && Shows(FileList(manifest, section, subsection).files)
    }

    /** The status readout names the section, and the subsection only for "Clothing". */
    predicate StatusShown()
      reads this
    {
      sectionText == section && subsectionText == (if section == Clothing then subsection else "")
    }

    /** The page before the manifest arrives: the controls hold their
        initial values, no thumbnail, no file, nothing done to the canvas. */
    constructor (section: string, subsection: string, subsectionVisible: bool,
                 sectionText: string, subsectionText: string)
      ensures Valid() && !wired && manifest == map[]
      ensures this.section == section && this.subsection == subsection
      ensures this.subsectionVisible == subsectionVisible
      ensures this.sectionText == sectionText && this.subsectionText == subsectionText
      ensures thumbs == [] && currentFileName == "" && effects == []
    {
      manifest := map[];
      wired := false;
      this.section := section;
      this.subsection := subsection;
      this.subsectionVisible := subsectionVisible;
      this.sectionText := sectionText;
      this.subsectionText := subsectionText;
      thumbs := [];
      currentFileName := "";
      effects := [];
    }

    /** `clearCanvas()`. */
    method ClearCanvas()
      modifies this`effects
      ensures effects == old(effects) + [Cleared]
    {
      effects := effects + [Cleared];
    }

    /** `loadSprite(file)`: requests the image at the path of `file` under
        the section and subsection selected now. */
    method LoadSprite(file: string)
      modifies this`effects
      ensures effects == old(effects) + [LoadRequested(SpritePath(section, subsection, file))]
    {
      effects := effects + [LoadRequested(SpritePath(section, subsection, file))];
    }

    /** `updateSelectedInfo()`. */
    method UpdateSelectedInfo()
      modifies this`sectionText, this`subsectionText
      ensures StatusShown()
    {
      sectionText := section;
      if section == Clothing {
        subsectionText := subsection;
      } else {
        subsectionText := "";
      }
    }

    /** What a rebuild of the strip leaves behind, given how it ended. */
    twostate predicate RebuildEffect(outcome: Outcome)
      reads this
    {
      var listing := FileList(manifest, section, subsection);
      && StatusShown()
      && outcome == (if listing.Listed? then Rebuilt else Threw(listing.error))
      && (listing == Thrown(ClothingMissing) ==>
            thumbs == old(thumbs) && currentFileName == old(currentFileName) && effects == old(effects))
      && (listing == Thrown(NotAList) ==>
            thumbs == [] && currentFileName == old(currentFileName) && effects == old(effects))
      && (listing.Listed? ==>
            && Synced()
            && (listing.files == [] ==>
                  currentFileName == old(currentFileName) && effects == old(effects) + [Cleared])
            && (listing.files != [] ==>
                  && OnlySelected(0)
                  && currentFileName == listing.files[0]
                  && effects == old(effects) + [LoadRequested(SpritePath(section, subsection, listing.files[0]))]))
    }

    /** The strip-building part of `updateSpriteThumbnails()` once the list
        is known: empties the strip, appends one thumbnail per file, then
        selects and loads the first file, or clears the canvas when there is
        none. */
    method ShowFiles(files: seq<string>)
      modifies this`thumbs, this`currentFileName, this`effects
      ensures Shows(files)
      ensures files == [] ==> currentFileName == old(currentFileName) && effects == old(effects) + [Cleared]
      ensures files != [] ==>
                && OnlySelected(0)
                && currentFileName == files[0]
                && effects == old(effects) + [LoadRequested(SpritePath(section, subsection, files[0]))]
    {
      thumbs := [];
      var i := 0;
      while i < |files|
        modifies this`thumbs
        invariant 0 <= i <= |files|
        invariant |thumbs| == i
        invariant forall k :: 0 <= k < i ==>
                    thumbs[k] == Thumbnail(files[k], SpritePath(section, subsection, files[k]), false)
      {
        thumbs := thumbs + [Thumbnail(files[i], SpritePath(section, subsection, files[i]), false)];
        i := i + 1;
      }
      if |files| > 0 {
        thumbs := thumbs[0 := thumbs[0].(selected := true)];
        currentFileName := files[0];
        LoadSprite(files[0]);
        assert OnlySelected(0);
      } else {
        ClearCanvas();
      }
    }

    /** `updateSpriteThumbnails()`: refreshes the status readout, looks the
        file list up and rebuilds the strip from it. */
    method Rebuild() returns (outcome: Outcome)
      requires Valid() && wired
      modifies this
      ensures Valid() && RebuildEffect(outcome)
      ensures manifest == old(manifest) && wired == old(wired)
      ensures section == old(section) && subsection == old(subsection)
      ensures subsectionVisible == old(subsectionVisible)
    {
      UpdateSelectedInfo();
      var listing := FileList(manifest, section, subsection);
      if listing == Thrown(ClothingMissing) {
        // `spritesManifest["Clothing"][...]` throws before the strip is touched
        return Threw(ClothingMissing);
      }
      if listing.Thrown? {
        // the strip is emptied, then `forEach` is found missing
        thumbs := [];
        return Threw(listing.error);
      }
      ShowFiles(listing.files);
      outcome := Rebuilt;
    }

    /** `querySelectorAll("img").forEach(thumb => thumb.classList.remove("selected"))`:
        takes "selected" off every thumbnail and changes nothing else. */
    method DeselectAll()
      modifies this`thumbs
      ensures |thumbs| == |old(thumbs)|
      ensures forall k :: 0 <= k < |thumbs| ==> thumbs[k] == old(thumbs[k]).(selected := false)
    {
      var j := 0;
      while j < |thumbs|
        invariant 0 <= j <= |thumbs| == |old(thumbs)|
        invariant forall k :: 0 <= k < |thumbs| ==>
                    thumbs[k] == old(thumbs[k]).(selected := if k < j then false else old(thumbs[k].selected))
      {
        thumbs := thumbs[j := thumbs[j].(selected := false)];
        j := j + 1;
      }
    }

    /** The click handler of thumbnail `i`: makes its file current, loads
        it, takes "selected" off every thumbnail and puts it on this one. */
    method Click(i: nat)
      requires Valid() && i < |thumbs|
      modifies this
      ensures Valid() && OnlySelected(i)
      ensures |thumbs| == |old(thumbs)|
      ensures forall k :: 0 <= k < |thumbs| ==> thumbs[k] == old(thumbs[k]).(selected := k == i)
      ensures currentFileName == old(thumbs[i].file)
      ensures effects == old(effects) + [LoadRequested(SpritePath(section, subsection, currentFileName))]
      ensures Synced() ==> effects[|effects| - 1] == LoadRequested(thumbs[i].src)
      ensures old(Synced()) ==> Synced()
      ensures manifest == old(manifest) && wired == old(wired)
      ensures section == old(section) && subsection == old(subsection)
      ensures subsectionVisible == old(subsectionVisible)
      ensures sectionText == old(sectionText) && subsectionText == old(subsectionText)
    {
      var file := thumbs[i].file;
      currentFileName := file;
      LoadSprite(file);
      DeselectAll();
      thumbs := thumbs[i := thumbs[i].(selected := true)];
      assert OnlySelected(i) && thumbs[i].file == currentFileName;
    }

    /** The change handler of the section control: shows the subsection
        control exactly for "Clothing" and rebuilds the strip. Before
        `init()` nothing listens, and only the control's value changes. */
    method ChangeSection(newSection: string) returns (outcome: Outcome)
      requires Valid()
      modifies this
      ensures Valid()
      ensures section == newSection && subsection == old(subsection)
      ensures manifest == old(manifest) && wired == old(wired)
      ensures wired ==> subsectionVisible == (section == Clothing) && RebuildEffect(outcome)
      ensures !wired ==> && outcome == Unwired && subsectionVisible == old(subsectionVisible)
                         && sectionText == old(sectionText) && subsectionText == old(subsectionText)
                         && thumbs == old(thumbs) && currentFileName == old(currentFileName)
                         && effects == old(effects)
    {
      section := newSection;
      if !wired {
        return Unwired;
      }
      if section == Clothing {
        subsectionVisible := true;
      } else {
        subsectionVisible := false;
      }
      outcome := Rebuild();
    }

    /** The change handler of the subsection control: rebuilds the strip. */
    method ChangeSubsection(newSubsection: string) returns (outcome: Outcome)
      requires Valid()
      modifies this
      ensures Valid()
      ensures subsection == newSubsection && section == old(section)
      ensures manifest == old(manifest) && wired == old(wired)
      ensures subsectionVisible == old(subsectionVisible)
      ensures wired ==> RebuildEffect(outcome)
      ensures !wired ==> && outcome == Unwired
                         && sectionText == old(sectionText) && subsectionText == old(subsectionText)
                         && thumbs == old(thumbs) && currentFileName == old(currentFileName)
                         && effects == old(effects)
    {
      subsection := newSubsection;
      if !wired {
        return Unwired;
      }
      outcome := Rebuild();
    }

    /** The manifest has arrived: store it, wire the handlers (`init()`)
        and build the first strip. */
    method Init(data: Manifest) returns (outcome: Outcome)
      requires Valid() && !wired
      modifies this
      ensures Valid() && wired && manifest == data
      ensures section == old(section) && subsection == old(subsection)
      ensures subsectionVisible == old(subsectionVisible)
      ensures RebuildEffect(outcome)
    {
      manifest := data;
      wired := true;
      outcome := Rebuild();
    }
  }

  /** While the strip matches the selection and is not empty, the current
      file is one of the files the manifest lists for that selection. */
  lemma CurrentFileIsListed(v: SpriteViewer)
    requires v.Valid() && v.Synced() && v.thumbs != []
    ensures v.currentFileName in FileList(v.manifest, v.section, v.subsection).files
  {
    var i :| v.OnlySelected(i) && v.thumbs[i].file == v.currentFileName;
    assert v.currentFileName == FileList(v.manifest, v.section, v.subsection).files[i];
  }

  /** The worked example: the manifest {"Hats": ["a.png", "b.png"]} with
      section "Hats" shows both files and loads `sprites/Hats/a.png`. */
  method HatsExample() returns (v: SpriteViewer)
    ensures v.thumbs == [Thumbnail("a.png", "sprites/Hats/a.png", true),
                         Thumbnail("b.png", "sprites/Hats/b.png", false)]
    ensures v.currentFileName == "a.png"
    ensures v.effects == [LoadRequested("sprites/Hats/a.png")]
  {
    v := new SpriteViewer("Hats", "", false, "", "");
    var outcome := v.Init(map["Hats" := Files(["a.png", "b.png"])]);
    assert FileList(v.manifest, v.section, v.subsection) == Listed(["a.png", "b.png"]);
    assert FolderPath("Hats", "") == "sprites/Hats/";
    assert SpritePath("Hats", "", "a.png") == "sprites/Hats/a.png";
    assert SpritePath("Hats", "", "b.png") == "sprites/Hats/b.png";
    assert v.OnlySelected(0) && |v.thumbs| == 2;
    assert v.thumbs[0] == Thumbnail("a.png", "sprites/Hats/a.png", true);
    assert v.thumbs[1] == Thumbnail("b.png", "sprites/Hats/b.png", false);
  }
}
