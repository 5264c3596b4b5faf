/**
 * EditorIcon(string filter): a filter string names where an editor icon
 * comes from. The asset database, Resources, the type search and the
 * built-in icon table are given as functions (`Loaders`); what is modelled
 * is which of them a filter selects and with what argument.
 */
module EditorIcons {
  import W = Wrappers
  import opened Strings

  /** The source EditorIcon(string) takes its texture from. */
  datatype IconSource =
    | NoIcon                       // the icon stays default (null)
    | AssetPath(path: string)      // AssetDatabase.LoadAssetAtPath
    | ResourcesPath(path: string)  // Resources.Load
    | TypeFullName(name: string)   // FromTypeFullName
    | TypeName(name: string)       // FromTypeName
    | BuiltinIcon(name: string)    // EditorGUIUtility.IconContent

  predicate IsAssetPath(f: string)
  {
    StartsWith(f, "Assets/") || StartsWith(f, "Packages/")
  }

  /** The filter classification of EditorIcon(string), tested prefix by prefix. */
  function Classify(filter: W.Option<string>): (src: IconSource)
    // a blank filter, or "t:" with a blank remainder, gives no icon
    ensures src == NoIcon <==>
      (IsNullOrWhiteSpace(filter) || (StartsWith(filter.value, "t:") && !IsAssetPath(filter.value)
                                      && IsNullOrWhiteSpace(W.Some(filter.value[2..]))))
    // an asset path is loaded whole, and is tested before any other prefix
    ensures src.AssetPath? <==> !IsNullOrWhiteSpace(filter) && IsAssetPath(filter.value)
    ensures src.AssetPath? ==> src.path == filter.value
    ensures src.ResourcesPath? <==>
      !IsNullOrWhiteSpace(filter) && !IsAssetPath(filter.value) && StartsWith(filter.value, "Resources/")
    ensures src.ResourcesPath? ==> filter.value == "Resources/" + src.path
    // "t:" names a type by the trimmed remainder: with a '.' its full name, else its short name
    ensures (src.TypeFullName? || src.TypeName?) ==>
      && StartsWith(filter.value, "t:")
      && src.name == Trim(filter.value[2..]) && src.name != []
      && (src.TypeFullName? <==> Contains(src.name, "."))
    // anything else is a built-in icon name, passed as it is
    ensures src.BuiltinIcon? <==>
      !IsNullOrWhiteSpace(filter) && !IsAssetPath(filter.value)
      && !StartsWith(filter.value, "Resources/") && !StartsWith(filter.value, "t:")
    ensures src.BuiltinIcon? ==> src.name == filter.value
  {
    if IsNullOrWhiteSpace(filter) then NoIcon
    else
      var f := filter.value;
      if IsAssetPath(f) then AssetPath(f)
      else if StartsWith(f, "Resources/") then
        assert f == f[..|"Resources/"|] + f[|"Resources/"|..];
        ResourcesPath(f[|"Resources/"|..])
      else if StartsWith(f, "t:") then
        var name := Trim(f[2..]);
        TrimEmptyIffWhiteSpace(f[2..]);
        if |name| == 0 then NoIcon
        else if Contains(name, ".") then TypeFullName(name)
        else TypeName(name)
      else BuiltinIcon(f)
  }

  /** The texture sources, outside this model. */
  datatype Loaders<Tex> = Loaders(
    loadAssetAtPath: string -> W.Option<Tex>,
    resourcesLoad: string -> W.Option<Tex>,
    fromTypeFullName: string -> W.Option<Tex>,
    searchTypeName: string -> W.Option<Tex>,
    iconContent: string -> W.Option<Tex>)

  /** FromTypeName: rejects a name with a separator, then searches the types by short name. */
  function FromTypeName<Tex>(loaders: Loaders<Tex>, name: string): (r: W.Result<W.Option<Tex>, W.ArgumentException>)
    ensures r.Failure? <==> '.' in name
    ensures r.Success? ==> r.value == loaders.searchTypeName(name)
  {
    ContainsChar(name, '.');
    if Contains(name, ".") then
      W.Failure(W.ArgumentException("Name must not contain any separators. Use FromFullTypeName instead"))
    else W.Success(loaders.searchTypeName(name))
  }

  /** The icon EditorIcon(string) ends up with; `None` is a null texture. */
  function IconFromFilter<Tex>(loaders: Loaders<Tex>, filter: W.Option<string>): (r: W.Result<W.Option<Tex>, W.ArgumentException>)
    // the '.' test before FromTypeName means its guard never throws here
    ensures r.Success?
    ensures Classify(filter) == NoIcon ==> r.value == W.None
    ensures Classify(filter).TypeName? ==> r.value == loaders.searchTypeName(Classify(filter).name)
  {
    match Classify(filter)
    case NoIcon => W.Success(W.None)
    case AssetPath(p) => W.Success(loaders.loadAssetAtPath(p))
    case ResourcesPath(p) => W.Success(loaders.resourcesLoad(p))
    case TypeFullName(n) => W.Success(loaders.fromTypeFullName(n))
    case TypeName(n) =>
      ContainsChar(n, '.');
      FromTypeName(loaders, n)
    case BuiltinIcon(n) => W.Success(loaders.iconContent(n))
  }

  /** A filter that starts with a non-blank character is not blank. */
  lemma NotBlank(f: string)
    requires |f| > 0 && !IsWhiteSpace(f[0])
    ensures !IsNullOrWhiteSpace(W.Some(f))
  {
  }

  /** A filter whose first character differs from a prefix's does not start with it. */
  lemma FirstCharDiffers(f: string, prefix: string)
    requires |f| > 0 && |prefix| > 0 && f[0] != prefix[0]
    ensures !StartsWith(f, prefix)
  {
    if |prefix| <= |f| {
      assert f[..|prefix|][0] == f[0];
    }
  }

  /** A filter that starts with neither 'A', 'P' nor 'R' is not an asset or Resources path. */
  lemma NotAPath(f: string)
    requires |f| > 0 && f[0] != 'A' && f[0] != 'P' && f[0] != 'R'
    ensures !IsAssetPath(f) && !StartsWith(f, "Resources/")
  {
    FirstCharDiffers(f, "Assets/");
    FirstCharDiffers(f, "Packages/");
    FirstCharDiffers(f, "Resources/");
  }

  /** An asset path is loaded as it is. */
  lemma ClassifyAssetPathExample()
    ensures Classify(W.Some("Assets/Icons/a.png")) == AssetPath("Assets/Icons/a.png")
  {
    var a := "Assets/Icons/a.png";
    NotBlank(a);
    assert StartsWith(a, "Assets/") by {
      assert a[..7] == "Assets/";
    }
  }

  /** A Resources path is loaded without its prefix. */
  lemma ClassifyResourcesPathExample()
    ensures Classify(W.Some("Resources/Icons/a")) == ResourcesPath("Icons/a")
  {
    var r := "Resources/Icons/a";
    NotBlank(r);
    FirstCharDiffers(r, "Assets/");
    FirstCharDiffers(r, "Packages/");
    assert StartsWith(r, "Resources/") by {
      assert r[..10] == "Resources/";
    }
    assert r[10..] == "Icons/a";
  }

  lemma ClassifyTypeFilter(f: string)
    requires !IsNullOrWhiteSpace(W.Some(f)) && !IsAssetPath(f) && !StartsWith(f, "Resources/")
    requires StartsWith(f, "t:") && Trim(f[2..]) != []
    ensures Classify(W.Some(f))
      == if Contains(Trim(f[2..]), ".") then TypeFullName(Trim(f[2..])) else TypeName(Trim(f[2..]))
  {
  }

  /** A "t:" filter selects the type lookup by the name after it: full with a '.', short without. */
  lemma ClassifyTypeName(name: string)
    requires |name| > 0 && !IsWhiteSpace(name[0]) && !IsWhiteSpace(name[|name| - 1])
    ensures Classify(W.Some("t:" + name)) == if '.' in name then TypeFullName(name) else TypeName(name)
  {
    var f := "t:" + name;
    NotBlank(f);
    NotAPath(f);
    assert StartsWith(f, "t:") && f[2..] == name by {
      assert f[..2] == "t:";
    }
    TrimUnpadded(name);
    ContainsChar(name, '.');
    ClassifyTypeFilter(f);
  }

  /** White space around the type name is trimmed away before the lookup. */
  lemma ClassifyPaddedTypeName(name: string)
    requires |name| > 0 && !IsWhiteSpace(name[0]) && !IsWhiteSpace(name[|name| - 1])
    ensures Classify(W.Some("t: " + name + " ")) == if '.' in name then TypeFullName(name) else TypeName(name)
  {
    var f := "t: " + name + " ";
    NotBlank(f);
    NotAPath(f);
    assert StartsWith(f, "t:") && f[2..] == [' '] + name + [' '] by {
      assert f[..2] == "t:";
    }
    TrimSurrounded(' ', name, ' ');
    ContainsChar(name, '.');
    ClassifyTypeFilter(f);
  }

  /** A "t:" filter with nothing after it gives no icon. */
  lemma ClassifyBlankTypeExample()
    ensures Classify(W.Some("t:  ")) == NoIcon
  {
    var h := "t:  ";
    NotBlank(h);
    NotAPath(h);
    assert StartsWith(h, "t:") && h[2..] == "  " by {
      assert h[..2] == "t:";
    }
  }

  /** Any other name is a built-in icon. */
  lemma ClassifyBuiltinExample()
    ensures Classify(W.Some("d_PlayButton")) == BuiltinIcon("d_PlayButton")
  {
    var b := "d_PlayButton";
    NotBlank(b);
    NotAPath(b);
    FirstCharDiffers(b, "t:");
  }
}
