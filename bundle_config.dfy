/**
 * The bundle description of `src/config/bundle.rs` (the contents of
 * `lovebrew.toml`): the platforms a bundle targets, its metadata with one
 * icon per platform, and its build settings.
 */
module BundleConfig {
  import opened Wrappers

  /** The name of the bundle description file in the project directory. */
  const CONFIG_NAME: string := "lovebrew.toml"

  /** The consoles a bundle can target: 3DS, Switch and Wii U. */
  datatype PlatformTarget = Ctr | Hac | Cafe

  /** The serialised name: the variant name in lower case. */
  function SerialName(p: PlatformTarget): (s: string)
    ensures s != [] && forall i :: 0 <= i < |s| ==> 'a' <= s[i] <= 'z'
  {
    match p
    case Ctr => "ctr"
    case Hac => "hac"
    case Cafe => "cafe"
  }

  /**
   * `PlatformTarget::from_str`: exactly the three lower-case names parse,
   * each to the platform whose serialised name it is; anything else is the
   * error "No such match".
   */
  function FromStr(s: string): (r: Result<PlatformTarget, string>)
    ensures r.Ok? <==> s in {"ctr", "hac", "cafe"}
    ensures r.Ok? ==> SerialName(r.value) == s
    ensures r.Err? ==> r.error == "No such match"
  {
    if s == "ctr" then Ok(Ctr)
    else if s == "hac" then Ok(Hac)
    else if s == "cafe" then Ok(Cafe)
    else Err("No such match")
  }

  /** Serialising then parsing gives back the platform. */
  lemma SerialRoundTrip(p: PlatformTarget)
    ensures FromStr(SerialName(p)) == Ok(p)
  {
    match p
    case Ctr =>
    case Hac =>
    case Cafe =>
  }

  /** Matching is exact: the upper-case spelling is not a platform name. */
  lemma CaseSensitive()
    ensures FromStr("CTR").Err? && FromStr("Hac").Err? && FromStr("CAFE").Err?
  {
  }

  /** The package metadata; `set_icon` updates the icon table in place. */
  class Metadata {
    var name: string
    var author: string
    var description: string
    var version: string
    var icons: map<PlatformTarget, string>

    /** `Metadata::default()`: empty strings, no icons. */
    constructor Default()
      ensures name == "" && author == "" && description == "" && version == "" && icons == map[]
    {
      name, author, description, version := "", "", "", "";
      icons := map[];
    }

    /**
     * `set_icon`: the platform's icon becomes `path`, replacing any earlier
     * one; the other platforms and the other fields keep their values.
     */
    method SetIcon(platform: PlatformTarget, path: string)
      modifies this
      ensures icons == old(icons)[platform := path]
      ensures name == old(name) && author == old(author)
      ensures description == old(description) && version == old(version)
    {
      icons := icons[platform := path];
    }
  }

  /** `Vec::contains`: a front-to-back scan for `t`. */
  function Contains(targets: seq<PlatformTarget>, t: PlatformTarget): (r: bool)
    ensures r <==> exists i :: 0 <= i < |targets| && targets[i] == t
  {
    if targets == [] then false
    else if targets[0] == t then true
    else
      var r := Contains(targets[1..], t);
      assert forall i :: 1 <= i < |targets| ==> targets[i] == targets[1..][i - 1];
      r
  }

  /** The build settings: target platforms, the game's source directory, whether to package it. */
  datatype Build = Build(targets: seq<PlatformTarget>, source: string, packaged: bool)
  {
    /** `has_target`: whether `target` is listed. */
    function HasTarget(target: PlatformTarget): (r: bool)
      ensures r <==> target in targets
    {
      Contains(targets, target)
    }
  }

  /** The whole description: metadata and build settings. */
  datatype BundleConfig = BundleConfig(metadata: Metadata, build: Build)
}
