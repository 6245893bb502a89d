/**
 * The file-type registry of the C++ front end (configmanager.cpp,
 * `ConfigManager`): `initialize` reads the `FileTypes/<type>` groups of
 * the configuration and fills four maps (type to handler path, type to
 * extension list, extension to type, type to display name); the getters
 * look them up. The file system and `QSettings` are parameters: whether
 * a path is readable or executable, the child groups, and the text each
 * group's values convert to.
 */
module Config {
  import opened Basics
  import opened QtText

  /** The values of one `FileTypes/<type>` group, each as `toString()` gives it ("" when missing). */
  datatype Group = Group(executablePath: string, extensions: string, displayName: string)

  /** The four maps: handler paths, extension lists, the type of each extension, and display names. */
  datatype Registry = Registry(paths: map<string, string>, extensions: map<string, seq<string>>,
                               types: map<string, string>, names: map<string, string>)

  function NoRegistry(): Registry
  {
    Registry(map[], map[], map[], map[])
  }

  // ---------------------------------------------------------------------
  // Extension lists
  // ---------------------------------------------------------------------

  /** Each piece trimmed and lowered, in order. */
  function Cleaned(ps: seq<string>): (r: seq<string>)
    ensures |r| == |ps| && forall i :: 0 <= i < |ps| ==> r[i] == ToLower(Trim(ps[i]))
  {
    seq(|ps|, i requires 0 <= i < |ps| => ToLower(Trim(ps[i])))
  }

  /**
   * The extension list as the code builds it: `split(",", SkipEmptyParts)`
   * drops the empty pieces first, and only then is each piece trimmed and
   * lowered, so a piece of white space survives as "".
   */
  function ExtensionsAsWritten(s: string): seq<string>
  {
    Cleaned(NonEmpty(Split(s)))
  }

  /** The extension list as intended: each piece trimmed and lowered, and the blank ones dropped. */
  function Extensions(s: string): seq<string>
  {
    NonEmpty(Cleaned(Split(s)))
  }

  /** Which of the two lists a loader builds from a group's `extensions` value. */
  datatype Listing = AsWritten | Intended

  function ListOf(l: Listing, s: string): seq<string>
  {
    match l
    case AsWritten => ExtensionsAsWritten(s)
    case Intended => Extensions(s)
  }

  /** An extension as trimming and lowering leave it: trimmed, lower case, and free of commas. */
  predicate Tidy(e: string)
  {
    Trim(e) == e && ToLower(e) == e && ',' !in e
  }

  /** An extension as the registry should hold it: tidy and not empty. */
  predicate Clean(e: string)
  {
    e != "" && Tidy(e)
  }

  /** A piece without commas cleans to a string without commas that trimming and lowering leave alone. */
  lemma CleanedPiece(p: string)
    requires ',' !in p
    ensures var e := ToLower(Trim(p)); Trim(e) == e && ToLower(e) == e && ',' !in e
  {
    var t := Trim(p);
    TrimShape(p);
    assert forall c :: c in t ==> c in p;
    TrimToLower(t);
    TrimIdempotent(p);
    ToLowerIdempotent(t);
    assert forall i :: 0 <= i < |t| ==> ToLower(t)[i] != ',';
  }

  /**
   * Every extension of the intended list is clean, and the list holds
   * exactly the non-blank pieces between the commas, trimmed and lowered.
   */
  lemma ExtensionsClean(s: string)
    ensures forall e :: e in Extensions(s) ==> Clean(e)
    ensures forall e :: e in Extensions(s) <==> e != "" && e in Cleaned(Split(s))
  {
    var ps := Split(s);
    SplitPieces(s);
    forall e | e in Extensions(s)
      ensures Clean(e)
    {
      var i :| 0 <= i < |ps| && Cleaned(ps)[i] == e;
      CleanedPiece(ps[i]);
    }
  }

  /**
   * Every extension of the list as written is tidy, and the list as
   * written holds the same non-empty extensions as the intended one: the
   * two differ only in the empty extension, which the list as written
   * holds exactly when the value has a non-empty piece of white space.
   */
  lemma ExtensionsAsWrittenTidy(s: string)
    ensures forall e :: e in ExtensionsAsWritten(s) ==> Tidy(e)
    ensures forall e :: e != "" ==> (e in ExtensionsAsWritten(s) <==> e in Extensions(s))
    ensures "" in ExtensionsAsWritten(s) <==> exists p :: p in Split(s) && p != "" && Trim(p) == ""
  {
    AsWrittenPieces(s);
    AsWrittenHoldsIntended(s);
    AsWrittenBlank(s);
  }

  /** Each extension of the list as written is a non-empty piece between commas, cleaned, and is tidy. */
  lemma AsWrittenPieces(s: string)
    ensures forall e :: e in ExtensionsAsWritten(s) ==>
      Tidy(e) && exists p :: p in Split(s) && p != "" && ToLower(Trim(p)) == e
  {
    var qs := NonEmpty(Split(s));
    SplitPieces(s);
    forall e | e in ExtensionsAsWritten(s)
      ensures Tidy(e) && exists p :: p in Split(s) && p != "" && ToLower(Trim(p)) == e
    {
      var i :| 0 <= i < |qs| && Cleaned(qs)[i] == e;
      var p := qs[i];
      assert p in Split(s);
      var j :| 0 <= j < |Split(s)| && Split(s)[j] == p;
      CleanedPiece(p);
    }
  }

  /** The two lists hold the same non-empty extensions. */
  lemma AsWrittenHoldsIntended(s: string)
    ensures forall e :: e != "" ==> (e in ExtensionsAsWritten(s) <==> e in Extensions(s))
  {
    forall e | e != ""
      ensures e in ExtensionsAsWritten(s) <==> e in Extensions(s)
    {
      if e in ExtensionsAsWritten(s) {
        AsWrittenInIntended(s, e);
      }
      if e in Extensions(s) {
        IntendedInAsWritten(s, e);
      }
    }
  }

  /** A non-empty extension of the list as written is in the intended list. */
  lemma AsWrittenInIntended(s: string, e: string)
    requires e != "" && e in ExtensionsAsWritten(s)
    ensures e in Extensions(s)
  {
    var ps := Split(s);
    AsWrittenPieces(s);
    var p :| p in ps && p != "" && ToLower(Trim(p)) == e;
    var j :| 0 <= j < |ps| && ps[j] == p;
    assert Cleaned(ps)[j] == e;
  }

  /** An extension of the intended list is in the list as written. */
  lemma IntendedInAsWritten(s: string, e: string)
    requires e in Extensions(s)
    ensures e in ExtensionsAsWritten(s)
  {
    var ps := Split(s);
    var qs := NonEmpty(ps);
    var j :| 0 <= j < |ps| && Cleaned(ps)[j] == e;
    assert ToLower(Trim("")) == "" by {
      TrimEmpty("");
    }
    assert ps[j] in qs;
    var i :| 0 <= i < |qs| && qs[i] == ps[j];
    assert Cleaned(qs)[i] == e;
  }

  /** The list as written holds "" exactly when a non-empty piece between commas is blank. */
  lemma AsWrittenBlank(s: string)
    ensures "" in ExtensionsAsWritten(s) <==> exists p :: p in Split(s) && p != "" && Trim(p) == ""
  {
    var qs := NonEmpty(Split(s));
    if "" in ExtensionsAsWritten(s) {
      AsWrittenPieces(s);
      var p :| p in Split(s) && p != "" && ToLower(Trim(p)) == "";
      assert |ToLower(Trim(p))| == |Trim(p)|;
    }
    if p :| p in Split(s) && p != "" && Trim(p) == "" {
      assert p in qs;
      var i :| 0 <= i < |qs| && qs[i] == p;
      assert Cleaned(qs)[i] == "";
    }
  }

  /**
   * A piece of white space after a comma, as in "stp, ", becomes the
   * empty extension in the list as written, and is dropped from the
   * intended one.
   */
  lemma BlankEntryAsWritten(x: string, b: string)
    requires Clean(x) && b != [] && forall i :: 0 <= i < |b| ==> IsSpace(b[i])
    ensures ExtensionsAsWritten(x + [','] + b) == [x, ""]
    ensures Extensions(x + [','] + b) == [x]
  {
    assert ',' !in b by {
      assert forall i :: 0 <= i < |b| ==> b[i] != ',';
    }
    SplitTwo(x, b);
    var ps := [x, b];
    assert NonEmpty(ps) == ps by {
      assert ps[..1] == [x];
      assert NonEmpty([x]) == [x];
    }
    TrimEmpty(b);
    CleanedTwo(x, b);
    assert [x, ""][..1] == [x];
    assert NonEmpty([x]) == [x];
  }

  /** Two pieces without commas, joined by one. */
  lemma SplitTwo(x: string, b: string)
    requires ',' !in x && ',' !in b
    ensures Split(x + [','] + b) == [x, b]
  {
    SplitExtend("", x);
    assert "" + x == x;
    assert Split(x) == [x];
    SplitSnoc(x, ',');
    var init := Split(x + [',']);
    assert init == [x, ""];
    SplitExtend(x + [','], b);
    assert init[..1] == [x] && "" + b == b;
  }

  /** A clean piece cleans to itself, and a blank one to "". */
  lemma CleanedTwo(x: string, b: string)
    requires Clean(x) && Trim(b) == ""
    ensures Cleaned([x, b]) == [x, ""]
  {
    assert ToLower("") == "";
  }

  // ---------------------------------------------------------------------
  // Loading the groups
  // ---------------------------------------------------------------------

  /** A group is kept when its trimmed handler path is not empty and is an executable file. */
  predicate Accepted(g: Group, executable: string -> bool)
  {
    Trim(g.executablePath) != "" && executable(Trim(g.executablePath))
  }

  /** The display name recorded for type t: its trimmed `displayName`, or t itself when that is blank. */
  function DisplayNameOf(t: string, g: Group): string
  {
    var name := Trim(g.displayName);
    if name == "" then t else name
  }

  /** Every extension of the list mapped to type t, over the earlier mapping. */
  function Assign(m: map<string, string>, exts: seq<string>, t: string): map<string, string>
  {
    if |exts| == 0 then m else Assign(m, exts[..|exts| - 1], t)[exts[|exts| - 1] := t]
  }

  /** After the assignment, the listed extensions map to t and every other keeps its earlier mapping. */
  lemma {:induction false} AssignAt(m: map<string, string>, exts: seq<string>, t: string, e: string)
    ensures var r := Assign(m, exts, t);
      (e in r <==> e in m || e in exts) && (e in r ==> r[e] == if e in exts then t else m[e])
  {
    if |exts| > 0 {
      AssignAt(m, exts[..|exts| - 1], t, e);
      assert e in exts <==> e in exts[..|exts| - 1] || e == exts[|exts| - 1] by {
        assert exts == exts[..|exts| - 1] + [exts[|exts| - 1]];
      }
    }
  }

  /** What an accepted group records for its type: the trimmed handler path, the extension list and the display name. */
  datatype Entry = Entry(path: string, exts: seq<string>, name: string)

  /** What the group of type t contributes, with the extension list l builds: nothing unless it is accepted. */
  function Contribution(l: Listing, t: string, g: Group, executable: string -> bool): Option<Entry>
  {
    if Accepted(g, executable) then Some(Entry(Trim(g.executablePath), ListOf(l, g.extensions), DisplayNameOf(t, g)))
    else None
  }

  /** The contribution of each child group, in order. */
  function Contributions(l: Listing, fileTypes: seq<string>, read: string -> Group, executable: string -> bool): (cs: seq<Option<Entry>>)
    ensures |cs| == |fileTypes|
    ensures forall j :: 0 <= j < |fileTypes| ==> cs[j] == Contribution(l, fileTypes[j], read(fileTypes[j]), executable)
  {
    seq(|fileTypes|, j requires 0 <= j < |fileTypes| => Contribution(l, fileTypes[j], read(fileTypes[j]), executable))
  }

  /** One pass of the `foreach` of `initialize`: the type's path, extension list, extensions and display name. */
  function Record(r: Registry, t: string, c: Option<Entry>): Registry
  {
    match c
    case None => r
    case Some(x) => Registry(r.paths[t := x.path], r.extensions[t := x.exts], Assign(r.types, x.exts, t), r.names[t := x.name])
  }

  /** The registry after the first k contributions. */
  function RecordAll(r: Registry, fileTypes: seq<string>, cs: seq<Option<Entry>>, k: nat): Registry
    requires k <= |fileTypes| == |cs|
  {
    if k == 0 then r else Record(RecordAll(r, fileTypes, cs, k - 1), fileTypes[k - 1], cs[k - 1])
  }

  /** The registry after every child group has been read, with the extension lists l builds. */
  function LoadAll(l: Listing, r: Registry, fileTypes: seq<string>, read: string -> Group, executable: string -> bool): Registry
  {
    RecordAll(r, fileTypes, Contributions(l, fileTypes, read, executable), |fileTypes|)
  }

  /**
   * What the registry keeps true: the extension lists and the display
   * names are recorded for the same types, each of them has a handler
   * path, every mapped extension is tidy and maps to a type with an
   * extension list.
   */
  ghost predicate RegistryValid(r: Registry)
  {
    && r.extensions.Keys == r.names.Keys && r.extensions.Keys <= r.paths.Keys
    && (forall e :: e in r.types ==> Tidy(e) && r.types[e] in r.extensions)
  }

  /** Every extension some contribution lists is tidy. */
  ghost predicate TidyContributions(cs: seq<Option<Entry>>)
  {
    forall j :: 0 <= j < |cs| && cs[j].Some? ==> forall e :: e in cs[j].value.exts ==> Tidy(e)
  }

  /**
   * The groups contribute tidy extensions only, with either list; with
   * the intended lists none of them is the empty extension.
   */
  lemma ContributionsClean(l: Listing, fileTypes: seq<string>, read: string -> Group, executable: string -> bool)
    ensures TidyContributions(Contributions(l, fileTypes, read, executable))
    ensures l == Intended ==> forall j :: 0 <= j < |fileTypes| && Contributions(l, fileTypes, read, executable)[j].Some? ==>
      "" !in Contributions(l, fileTypes, read, executable)[j].value.exts
  {
    var cs := Contributions(l, fileTypes, read, executable);
    forall j | 0 <= j < |cs| && cs[j].Some?
      ensures forall e :: e in cs[j].value.exts ==> Tidy(e)
      ensures l == Intended ==> "" !in cs[j].value.exts
    {
      ExtensionsClean(read(fileTypes[j]).extensions);
      ExtensionsAsWrittenTidy(read(fileTypes[j]).extensions);
    }
  }

  /** Recording a contribution of tidy extensions keeps the registry valid. */
  lemma RecordValid(r: Registry, t: string, c: Option<Entry>)
    requires RegistryValid(r) && (c.Some? ==> forall e :: e in c.value.exts ==> Tidy(e))
    ensures RegistryValid(Record(r, t, c))
  {
    if c.Some? {
      var x := c.value;
      forall e | e in Assign(r.types, x.exts, t)
        ensures Tidy(e) && Assign(r.types, x.exts, t)[e] in r.extensions[t := x.exts]
      {
        AssignAt(r.types, x.exts, t, e);
      }
    }
  }

  /** Recording any number of tidy contributions keeps the registry valid. */
  lemma {:induction false} RecordAllValid(r: Registry, fileTypes: seq<string>, cs: seq<Option<Entry>>, k: nat)
    requires RegistryValid(r) && k <= |fileTypes| == |cs| && TidyContributions(cs)
    ensures RegistryValid(RecordAll(r, fileTypes, cs, k))
  {
    if k > 0 {
      RecordAllValid(r, fileTypes, cs, k - 1);
      RecordValid(RecordAll(r, fileTypes, cs, k - 1), fileTypes[k - 1], cs[k - 1]);
    }
  }

  /** What the registry holds for type t: its handler path, its extension list and its display name, where present. */
  function Held(r: Registry, t: string): (Option<string>, Option<seq<string>>, Option<string>)
  {
    (if t in r.paths then Some(r.paths[t]) else None,
     if t in r.extensions then Some(r.extensions[t]) else None,
     if t in r.names then Some(r.names[t]) else None)
  }

  /** The three values an entry records. */
  function Fields(x: Entry): (Option<string>, Option<seq<string>>, Option<string>)
  {
    (Some(x.path), Some(x.exts), Some(x.name))
  }

  /** The last of the first k contributions that is for type t, if any. */
  function LastFor(fileTypes: seq<string>, cs: seq<Option<Entry>>, t: string, k: nat): (o: Option<nat>)
    requires k <= |fileTypes| == |cs|
    ensures o.Some? ==> o.value < k && fileTypes[o.value] == t && cs[o.value].Some?
    ensures forall j :: (if o.Some? then o.value + 1 else 0) <= j < k ==> !(fileTypes[j] == t && cs[j].Some?)
  {
    if k == 0 then None
    else if fileTypes[k - 1] == t && cs[k - 1].Some? then Some(k - 1)
    else LastFor(fileTypes, cs, t, k - 1)
  }

  /**
   * After the first k contributions, a type holds what the last
   * contribution for it recorded, and what it held before when there is
   * none.
   */
  lemma {:induction false} RecordAllTypes(r: Registry, fileTypes: seq<string>, cs: seq<Option<Entry>>, k: nat, t: string)
    requires k <= |fileTypes| == |cs|
    ensures var o := LastFor(fileTypes, cs, t, k);
      Held(RecordAll(r, fileTypes, cs, k), t) == if o.Some? then Fields(cs[o.value].value) else Held(r, t)
  {
    if k > 0 {
      RecordAllTypes(r, fileTypes, cs, k - 1, t);
    }
  }

  /** The last of the first k contributions that lists extension e, if any. */
  function Owner(cs: seq<Option<Entry>>, e: string, k: nat): (o: Option<nat>)
    requires k <= |cs|
    ensures o.Some? ==> o.value < k && cs[o.value].Some? && e in cs[o.value].value.exts
    ensures forall j :: (if o.Some? then o.value + 1 else 0) <= j < k ==> !(cs[j].Some? && e in cs[j].value.exts)
  {
    if k == 0 then None
    else if cs[k - 1].Some? && e in cs[k - 1].value.exts then Some(k - 1)
    else Owner(cs, e, k - 1)
  }

  /** The type extension e maps to, if any. */
  function TypeOf(r: Registry, e: string): Option<string>
  {
    if e in r.types then Some(r.types[e]) else None
  }

  /**
   * An extension maps to the type of the last contribution that lists
   * it, the later overwriting the earlier; an extension none lists keeps
   * its earlier mapping, or stays unmapped.
   */
  lemma {:induction false} RecordAllExtension(r: Registry, fileTypes: seq<string>, cs: seq<Option<Entry>>, k: nat, e: string)
    requires k <= |fileTypes| == |cs|
    ensures var o := Owner(cs, e, k);
      TypeOf(RecordAll(r, fileTypes, cs, k), e) == if o.Some? then Some(fileTypes[o.value]) else TypeOf(r, e)
  {
    if k > 0 {
      RecordAllExtension(r, fileTypes, cs, k - 1, e);
      if cs[k - 1].Some? {
        AssignAt(RecordAll(r, fileTypes, cs, k - 1).types, cs[k - 1].value.exts, fileTypes[k - 1], e);
      }
    }
  }

  /**
   * The loop state after the first i pieces: the pieces before i trimmed
   * and lowered in place, the rest as split, and the cleaned ones mapped
   * to type t over m.
   */
  ghost predicate Collected(ps: seq<string>, i: nat, m: map<string, string>, t: string, exts: seq<string>, r: map<string, string>)
  {
    i <= |ps| && exts == Cleaned(ps[..i]) + ps[i..] && r == Assign(m, Cleaned(ps[..i]), t)
  }

  /** One more piece: it is trimmed and lowered in place, whatever it becomes, and then mapped to type t. */
  lemma CollectStep(ps: seq<string>, i: nat, m: map<string, string>, t: string, exts: seq<string>, r: map<string, string>)
    requires i < |ps| && Collected(ps, i, m, t, exts, r)
    ensures var e := ToLower(Trim(exts[i])); e == ToLower(Trim(ps[i])) && Collected(ps, i + 1, m, t, exts[i := e], r[e := t])
  {
    var e := ToLower(Trim(ps[i]));
    var c := Cleaned(ps[..i + 1]);
    assert exts[i] == ps[i];
    assert c[..i] == Cleaned(ps[..i]) && c == Cleaned(ps[..i]) + [e];
    assert exts[i := e] == c + ps[i + 1..];
  }

  /**
   * The list of a group's `extensions` value as the code builds it, each
   * of its extensions, "" included, mapped to type t over m.
   */
  method CollectExtensions(s: string, m: map<string, string>, t: string) returns (exts: seq<string>, r: map<string, string>)
    ensures exts == ExtensionsAsWritten(s) && r == Assign(m, exts, t)
  {
    var pieces := NonEmpty(Split(s));
    exts, r := pieces, m;
    assert pieces[..0] == [] && pieces[0..] == pieces;
    var i := 0;
    while i < |exts|
      invariant Collected(pieces, i, m, t, exts, r)
      decreases |exts| - i
    {
      CollectStep(pieces, i, m, t, exts, r);
      exts := exts[i := ToLower(Trim(exts[i]))];
      r := r[exts[i] := t];
      i := i + 1;
    }
    assert pieces[..i] == pieces;
  }

  class ConfigManager {
    var configPath: string
    var paths: map<string, string>
    var extensions: map<string, seq<string>>
    var types: map<string, string>
    var names: map<string, string>

    /** The four maps as one value. */
    function Contents(): Registry
      reads this
    {
      Registry(paths, extensions, types, names)
    }

    ghost predicate Valid()
      reads this
    {
      RegistryValid(Contents())
    }

    /** A new manager: no configuration path and empty maps. */
    constructor ()
      ensures Valid() && configPath == "" && Contents() == NoRegistry()
    {
      configPath, paths, extensions, types, names := "", map[], map[], map[], map[];
    }

    /**
     * `initialize(configPath)`: the default path when none is given; an
     * unreadable file or one without `FileTypes` groups fails and leaves
     * the maps, otherwise every group is loaded in order, over what the
     * maps held, and the result is `validateConfiguration()`.
     */
    method Initialize(given: string, cwd: string, readable: string -> bool,
                      fileTypes: seq<string>, read: string -> Group, executable: string -> bool) returns (ok: bool)
      requires Valid()
      modifies this
      ensures Valid()
      ensures configPath == if given == "" then cwd + "/../config.ini" else given
      ensures if !readable(configPath) || fileTypes == [] then !ok && Contents() == old(Contents())
              else Contents() == LoadAll(AsWritten, old(Contents()), fileTypes, read, executable) && ok == ValidateConfiguration()
    {
      configPath := if given == "" then cwd + "/../config.ini" else given;
      if !readable(configPath) || fileTypes == [] {
        return false;
      }
      ghost var r0 := Contents();
      ghost var cs := Contributions(AsWritten, fileTypes, read, executable);
      var k := 0;
      while k < |fileTypes|
        invariant k <= |fileTypes| && Contents() == RecordAll(r0, fileTypes, cs, k)
        invariant configPath == if given == "" then cwd + "/../config.ini" else given
      {
        LoadType(fileTypes[k], read(fileTypes[k]), executable);
        k := k + 1;
      }
      ContributionsClean(AsWritten, fileTypes, read, executable);
      RecordAllValid(r0, fileTypes, cs, |fileTypes|);
      ok := ValidateConfiguration();
    }

    /** One group: skipped unless accepted; otherwise its path, extension list as written, extensions and display name are recorded. */
    method LoadType(t: string, g: Group, executable: string -> bool)
      modifies this`paths, this`extensions, this`types, this`names
      ensures Contents() == Record(old(Contents()), t, Contribution(AsWritten, t, g, executable))
    {
      var exe := Trim(g.executablePath);
      if exe == "" || !executable(exe) {
        return;
      }
      paths := paths[t := exe];
      var exts;
      exts, types := CollectExtensions(g.extensions, types, t);
      extensions := extensions[t := exts];
      names := names[t := DisplayNameOf(t, g)];
    }

    /** `validateConfiguration()`: true exactly when some type has a handler path. */
    function ValidateConfiguration(): (ok: bool)
      reads this
      ensures ok <==> exists t :: t in paths
    {
      if paths == map[] then false
      else
        var t :| t in paths;
        true
    }

    /** `getExecutablePathForType(t)`: the handler path, "" for a type without one. */
    function ExecutablePathForType(t: string): string
      reads this
    {
      if t in paths then paths[t] else ""
    }

    /** `getSupportedFileTypes()`: every type with a handler path, once each, in ascending order. */
    method SupportedFileTypes() returns (r: seq<string>)
      ensures (forall t :: t in r <==> t in paths) && |r| == |paths| && Ascending(r)
    {
      r := SortedKeys(paths.Keys);
    }

    /** `getFileExtensionsForType(t)`: the extension list, empty for an unknown type. */
    function FileExtensionsForType(t: string): seq<string>
      reads this
    {
      if t in extensions then extensions[t] else []
    }

    /** `getFileTypeForExtension(ext)`: the type the lowered extension maps to, "" for none. */
    function FileTypeForExtension(ext: string): string
      reads this
    {
      var e := ToLower(ext);
      if e in types then types[e] else ""
    }

    /** `getDisplayNameForType(t)`: the display name, or the type itself when it has none. */
    function DisplayNameForType(t: string): string
      reads this
    {
      if t in names then names[t] else t
    }

    /** `setExecutablePathForType(t, path)`: t's handler path is set; the other maps are left alone. */
    method SetExecutablePathForType(t: string, path: string)
      requires Valid()
      modifies this`paths
      ensures Valid() && paths == old(paths)[t := path]
    {
      paths := paths[t := path];
    }
  }

  // ---------------------------------------------------------------------
  // What the getters answer
  // ---------------------------------------------------------------------

  /** The lookup of an extension ignores case: any spelling that lowers the same finds the same type. */
  lemma LookupIgnoresCase(c: ConfigManager, a: string, b: string)
    requires ToLower(a) == ToLower(b)
    ensures c.FileTypeForExtension(a) == c.FileTypeForExtension(b)
    ensures c.FileTypeForExtension(a) == c.FileTypeForExtension(ToLower(a))
  {
    ToLowerIdempotent(a);
  }

  /** A type found for an extension has an extension list and a display name. */
  lemma FoundTypeIsConfigured(c: ConfigManager, ext: string)
    requires c.Valid() && c.FileTypeForExtension(ext) in c.types.Values
    ensures var t := c.FileTypeForExtension(ext);
      t in c.extensions && t in c.names && t in c.paths
  {
  }

  /**
   * After loading from a new manager, with either list, an accepted type
   * answers its trimmed handler path, its extension list and its display
   * name or the type name; a type never accepted answers "", no
   * extensions, and its own name.
   */
  lemma InitializedLookups(c: ConfigManager, l: Listing, fileTypes: seq<string>, read: string -> Group, executable: string -> bool, t: string)
    requires c.Contents() == LoadAll(l, NoRegistry(), fileTypes, read, executable)
    ensures t in fileTypes && Accepted(read(t), executable) ==>
      && c.ExecutablePathForType(t) == Trim(read(t).executablePath) && c.ExecutablePathForType(t) != ""
      && c.FileExtensionsForType(t) == ListOf(l, read(t).extensions)
      && c.DisplayNameForType(t) == DisplayNameOf(t, read(t))
    ensures !(t in fileTypes && Accepted(read(t), executable)) ==>
      c.ExecutablePathForType(t) == "" && c.FileExtensionsForType(t) == [] && c.DisplayNameForType(t) == t
  {
    var cs := Contributions(l, fileTypes, read, executable);
    RecordAllTypes(NoRegistry(), fileTypes, cs, |fileTypes|, t);
    var o := LastFor(fileTypes, cs, t, |fileTypes|);
    assert Held(c.Contents(), t) == if o.Some? then Fields(cs[o.value].value) else Held(NoRegistry(), t);
    if o.Some? {
      assert cs[o.value] == Contribution(l, t, read(t), executable);
    }
  }

  /**
   * After loading from a new manager, an extension maps to the type of
   * the last contribution that lists it, and to nothing when none does.
   */
  lemma InitializedExtension(c: ConfigManager, l: Listing, fileTypes: seq<string>, read: string -> Group, executable: string -> bool, ext: string)
    requires c.Contents() == LoadAll(l, NoRegistry(), fileTypes, read, executable)
    ensures var o := Owner(Contributions(l, fileTypes, read, executable), ToLower(ext), |fileTypes|);
      c.FileTypeForExtension(ext) == if o.Some? then fileTypes[o.value] else ""
  {
    var cs := Contributions(l, fileTypes, read, executable);
    var e := ToLower(ext);
    RecordAllExtension(NoRegistry(), fileTypes, cs, |fileTypes|, e);
    assert c.types == RecordAll(NoRegistry(), fileTypes, cs, |fileTypes|).types;
    assert TypeOf(c.Contents(), e) == if e in c.types then Some(c.types[e]) else None;
  }

  /**
   * The contribution that owns an extension is that of an accepted group
   * whose list holds it, and no later accepted group lists it.
   */
  lemma OwnerIsLastGroup(l: Listing, fileTypes: seq<string>, read: string -> Group, executable: string -> bool, e: string, j: nat)
    requires j < |fileTypes|
    ensures var o := Owner(Contributions(l, fileTypes, read, executable), e, |fileTypes|);
      o.Some? ==> Accepted(read(fileTypes[o.value]), executable) && e in ListOf(l, read(fileTypes[o.value]).extensions)
    ensures var o := Owner(Contributions(l, fileTypes, read, executable), e, |fileTypes|);
      (o.None? || o.value < j) ==> !(Accepted(read(fileTypes[j]), executable) && e in ListOf(l, read(fileTypes[j]).extensions))
  {
    var cs := Contributions(l, fileTypes, read, executable);
    var o := Owner(cs, e, |fileTypes|);
    if o.Some? {
      assert cs[o.value] == Contribution(l, fileTypes[o.value], read(fileTypes[o.value]), executable);
    }
    assert cs[j] == Contribution(l, fileTypes[j], read(fileTypes[j]), executable);
  }

  /**
   * The corrected loader: with the intended lists nothing maps the empty
   * extension, so a file without a suffix has no type.
   */
  lemma NoTypeForEmptyExtension(c: ConfigManager, fileTypes: seq<string>, read: string -> Group, executable: string -> bool)
    requires c.Contents() == LoadAll(Intended, NoRegistry(), fileTypes, read, executable)
    ensures c.FileTypeForExtension("") == ""
  {
    var cs := Contributions(Intended, fileTypes, read, executable);
    ContributionsClean(Intended, fileTypes, read, executable);
    InitializedExtension(c, Intended, fileTypes, read, executable, "");
    assert ToLower("") == "";
    var o := Owner(cs, "", |fileTypes|);
    assert o.None?;
  }

  /**
   * The loader as written: one accepted group whose `extensions` value is
   * a clean extension, a comma and white space ("stp, ") maps the empty
   * extension to its type, so a file without a suffix is of that type.
   */
  lemma BlankExtensionTyped(c: ConfigManager, t: string, read: string -> Group, executable: string -> bool, x: string, b: string)
    requires Accepted(read(t), executable) && read(t).extensions == x + [','] + b
    requires Clean(x) && b != [] && forall i :: 0 <= i < |b| ==> IsSpace(b[i])
    requires c.Contents() == LoadAll(AsWritten, NoRegistry(), [t], read, executable)
    ensures c.FileExtensionsForType(t) == [x, ""] && c.FileTypeForExtension("") == t
  {
    BlankEntryAsWritten(x, b);
    InitializedLookups(c, AsWritten, [t], read, executable, t);
    InitializedExtension(c, AsWritten, [t], read, executable, "");
    assert ToLower("") == "";
    var cs := Contributions(AsWritten, [t], read, executable);
    assert cs[0] == Contribution(AsWritten, t, read(t), executable);
    assert "" in cs[0].value.exts;
  }

  /** A display name is never blank for a type of non-blank name: a blank one falls back to the type. */
  lemma DisplayNameNotBlank(t: string, g: Group)
    requires Trim(t) != ""
    ensures Trim(DisplayNameOf(t, g)) != ""
  {
    TrimIdempotent(g.displayName);
  }
}
