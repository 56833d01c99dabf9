/**
 * What the installer decides from a release and its archive: which asset is
 * downloaded, which archive entries are extracted and recorded, and which
 * launch-option hint is shown for a loader-override DLL.
 */
module Archive {
  import opened Wrappers
  import opened Text

  /** One downloadable asset of a release. */
  datatype Asset = Asset(name: string, url: string)

  predicate IsZip(a: Asset) {
    EndsWith(a.name, ".zip")
  }

  /** `next((a for a in assets if a['name'].endswith('.zip')), None)`. */
  function FirstZip(assets: seq<Asset>): (r: Option<Asset>)
    ensures r.None? <==> forall i :: 0 <= i < |assets| ==> !IsZip(assets[i])
    ensures r.Some? ==> exists i :: 0 <= i < |assets| && assets[i] == r.value && IsZip(assets[i]) &&
                                    forall j :: 0 <= j < i ==> !IsZip(assets[j])
  {
    if assets == [] then None
    else if IsZip(assets[0]) then Some(assets[0])
    else
      var r := FirstZip(assets[1..]);
      assert forall i :: 1 <= i < |assets| ==> assets[i] == assets[1..][i - 1];
      r
  }

  /** An entry that is never extracted: the instruction placeholder or macOS metadata. */
  predicate IsJunk(f: string) {
    Contains(f, "EXTRACT_TO_GAME_FOLDER") || Contains(f, "__MACOSX")
  }

  /** The entries extracted and recorded, in archive order. */
  function Kept(names: seq<string>): seq<string>
  {
    if names == [] then []
    else (if IsJunk(names[0]) then [] else [names[0]]) + Kept(names[1..])
  }

  /** `a` can be obtained from `b` by deleting elements. */
  predicate IsSubsequence<T(==)>(a: seq<T>, b: seq<T>)
    decreases |b|
  {
    if a == [] then true
    else if b == [] then false
    else if a[0] == b[0] then IsSubsequence(a[1..], b[1..])
    else IsSubsequence(a, b[1..])
  }

  /** The kept entries are exactly the non-junk entries, and they keep the archive's order. */
  lemma {:induction false} KeptIsFilter(names: seq<string>)
    ensures forall f :: f in Kept(names) <==> f in names && !IsJunk(f)
    ensures IsSubsequence(Kept(names), names)
    ensures |Kept(names)| <= |names|
    decreases |names|
  {
    if names != [] {
      KeptIsFilter(names[1..]);
      assert names == [names[0]] + names[1..];
      var rest := Kept(names[1..]);
      if IsJunk(names[0]) {
        assert Kept(names) == rest;
        if rest != [] {
          assert rest[0] in rest;
          assert rest[0] != names[0];
        }
      } else {
        assert Kept(names) == [names[0]] + rest;
        assert Kept(names)[1..] == rest;
      }
    }
  }

  /** Appending one entry to the archive adds it to the kept list unless it is junk. */
  lemma {:induction false} KeptSnoc(names: seq<string>, f: string)
    ensures Kept(names + [f]) == Kept(names) + (if IsJunk(f) then [] else [f])
    decreases |names|
  {
    if names == [] {
      assert names + [f] == [f];
    } else {
      var head := if IsJunk(names[0]) then [] else [names[0]];
      var last := if IsJunk(f) then [] else [f];
      assert (names + [f])[0] == names[0];
      assert (names + [f])[1..] == names[1..] + [f];
      KeptSnoc(names[1..], f);
      calc {
        Kept(names + [f]);
        head + Kept(names[1..] + [f]);
        head + (Kept(names[1..]) + last);
        (head + Kept(names[1..])) + last;
      }
    }
  }

  /** The kept list of an archive prefix is a prefix of the archive's kept list. */
  lemma {:induction false} KeptPrefix(names: seq<string>, i: nat)
    requires i <= |names|
    ensures Kept(names[..i]) <= Kept(names)
    decreases |names| - i
  {
    if i < |names| {
      KeptPrefix(names, i + 1);
      assert names[..i + 1] == names[..i] + [names[i]];
      KeptSnoc(names[..i], names[i]);
    } else {
      assert names[..i] == names;
    }
  }

  /** One more archive entry visited by the extraction loop. */
  lemma KeptStep(names: seq<string>, i: nat)
    requires i < |names|
    ensures Kept(names[..i + 1]) == Kept(names[..i]) + (if IsJunk(names[i]) then [] else [names[i]])
  {
    assert names[..i + 1] == names[..i] + [names[i]];
    KeptSnoc(names[..i], names[i]);
  }

  /** When the loop stops at a kept entry, the entries kept before it are a
      proper prefix of the whole kept list. */
  lemma KeptBefore(names: seq<string>, i: nat)
    requires i < |names| && !IsJunk(names[i])
    ensures |Kept(names[..i])| < |Kept(names)|
    ensures Kept(names)[..|Kept(names[..i])|] == Kept(names[..i])
  {
    KeptStep(names, i);
    KeptPrefix(names, i + 1);
  }

  /** `[f for f in files if f.endswith('.dll')]`. */
  function Dlls(files: seq<string>): seq<string>
  {
    if files == [] then []
    else (if EndsWith(files[0], ".dll") then [files[0]] else []) + Dlls(files[1..])
  }

  /** The DLL list holds exactly the entries whose name ends in ".dll". */
  lemma {:induction false} DllsMembers(files: seq<string>, f: string)
    ensures f in Dlls(files) <==> f in files && EndsWith(f, ".dll")
    decreases |files|
  {
    if files != [] {
      DllsMembers(files[1..], f);
      assert f in files <==> f == files[0] || f in files[1..];
    }
  }

  /** The launch option that makes Wine load the bundled `lib` before its own. */
  function OverrideFor(lib: string): string {
    "WINEDLLOVERRIDES=\"" + lib + "=n,b\" %command%"
  }

  /** The override hint, by exact entry name, in priority winmm, dinput8, dsound, version. */
  function OverrideHint(files: seq<string>): (hint: string)
    ensures "winmm.dll" in files ==> hint == OverrideFor("winmm")
    ensures "winmm.dll" !in files && "dinput8.dll" in files ==> hint == OverrideFor("dinput8")
    ensures "winmm.dll" !in files && "dinput8.dll" !in files && "dsound.dll" in files ==> hint == OverrideFor("dsound")
    ensures "winmm.dll" !in files && "dinput8.dll" !in files && "dsound.dll" !in files && "version.dll" in files ==>
              hint == OverrideFor("version")
    ensures hint == "" <==> "winmm.dll" !in files && "dinput8.dll" !in files && "dsound.dll" !in files && "version.dll" !in files
  {
    var dlls := Dlls(files);
    DllsMembers(files, "winmm.dll");
    DllsMembers(files, "dinput8.dll");
    DllsMembers(files, "dsound.dll");
    DllsMembers(files, "version.dll");
    assert EndsWith("winmm.dll", ".dll") && EndsWith("dinput8.dll", ".dll");
    assert EndsWith("dsound.dll", ".dll") && EndsWith("version.dll", ".dll");
    if "winmm.dll" in dlls then OverrideFor("winmm")
    else if "dinput8.dll" in dlls then OverrideFor("dinput8")
    else if "dsound.dll" in dlls then OverrideFor("dsound")
    else if "version.dll" in dlls then OverrideFor("version")
    else ""
  }
}
