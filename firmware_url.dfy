/** `_getFirmwareUrl(release)`: the download URL of a release's HEX
    firmware. A release that carries a manifest with a firmware artifact
    is served from the Pages site; otherwise the release's asset links are
    searched. A release that offers no HEX image is refused; the updater
    never falls back to a raw binary image. */
module FirmwareUrl {
  import opened Wrappers
  import opened JsText

  /** `manifest.artifacts.firmware`; `kind` is its `type` field. */
  datatype Firmware = Firmware(permanent: Option<string>, kind: Option<string>, hex: Option<string>)
  datatype Artifacts = Artifacts(firmware: Option<Firmware>)
  datatype Manifest = Manifest(artifacts: Option<Artifacts>)
  datatype Link = Link(name: Option<string>, url: Option<string>, directAssetUrl: Option<string>)
  datatype Assets = Assets(links: Option<seq<Link>>)
  datatype Release = Release(tagName: string, manifest: Option<Manifest>, assets: Option<Assets>)

  datatype UrlError =
    | ReleaseLacksHex(tag: string)  // the manifest names no HEX image
    | NoHexAsset                    // no asset link is a HEX image
    | NoFirmwareUrl                 // neither a manifest nor asset links

  /** `release.manifest && release.manifest.artifacts &&
      release.manifest.artifacts.firmware` */
  function ManifestFirmware(r: Release): Option<Firmware> {
    if r.manifest.Some? && r.manifest.value.artifacts.Some? then r.manifest.value.artifacts.value.firmware
    else None
  }

  /** The permanent artifact is declared or named as a HEX file. */
  predicate PermanentIsHex(fw: Firmware) {
    Truthy(fw.permanent) &&
      (fw.kind == Some("hex") || EndsWith(ToLowerAscii(fw.permanent.value), ".hex"))
  }

  /** The link is named or addressed as a HEX file. */
  predicate IsHexLink(l: Link) {
    || (Truthy(l.name) && Includes(ToLowerAscii(l.name.value), "hex"))
    || (Truthy(l.url) && EndsWith(ToLowerAscii(l.url.value), ".hex"))
  }

  /** `links.find(IsHexLink)`: the first HEX link, if any. */
  function FindHexLink(links: seq<Link>): (r: Option<Link>)
    ensures r.None? <==> forall i :: 0 <= i < |links| ==> !IsHexLink(links[i])
  {
    if links == [] then None
    else if IsHexLink(links[0]) then Some(links[0])
    else FindHexLink(links[1..])
  }

  /** The link found is the first HEX link. */
  lemma {:induction false} FindHexLinkFirst(links: seq<Link>)
    requires FindHexLink(links).Some?
    ensures exists k ::
      && 0 <= k < |links| && links[k] == FindHexLink(links).value && IsHexLink(links[k])
      && (forall i :: 0 <= i < k ==> !IsHexLink(links[i]))
  {
    if !IsHexLink(links[0]) {
      var tail := links[1..];
      FindHexLinkFirst(tail);
      var k :| 0 <= k < |tail| && tail[k] == FindHexLink(tail).value &&
        IsHexLink(tail[k]) && forall i :: 0 <= i < k ==> !IsHexLink(tail[i]);
      assert links[k + 1] == tail[k];
      assert forall i :: 0 < i <= k ==> links[i] == tail[i - 1];
    } else {
      assert links[0] == FindHexLink(links).value;
    }
  }

  /** `release.assets && release.assets.links && release.assets.links.length > 0` */
  function AssetLinks(r: Release): seq<Link> {
    if r.assets.Some? && r.assets.value.links.Some? then r.assets.value.links.value else []
  }

  /** The URL, or the error thrown. A URL that is None is `undefined`: a
      HEX link with neither a direct asset URL nor a URL yields it. */
  function GetFirmwareUrl(pagesBase: string, r: Release): Result<Option<string>, UrlError> {
    match ManifestFirmware(r)
    case Some(fw) =>
      if PermanentIsHex(fw) then Ok(Some(pagesBase + "/latest/" + fw.permanent.value))
      else if Truthy(fw.hex) then Ok(Some(pagesBase + "/latest/" + fw.hex.value))
      else Err(ReleaseLacksHex(r.tagName))
    case None =>
      var links := AssetLinks(r);
      if |links| > 0 then
        match FindHexLink(links)
        case Some(l) => Ok(if Truthy(l.directAssetUrl) then l.directAssetUrl else l.url)
        case None => Err(NoHexAsset)
      else Err(NoFirmwareUrl)
  }

  /** Each error happens exactly when the release offers no HEX image in
      the place the updater looks: the manifest when there is one,
      otherwise the asset links. */
  lemma UrlErrorsIff(pagesBase: string, r: Release)
    ensures GetFirmwareUrl(pagesBase, r) == Err(ReleaseLacksHex(r.tagName)) <==>
      ManifestFirmware(r).Some? && !PermanentIsHex(ManifestFirmware(r).value) &&
      !Truthy(ManifestFirmware(r).value.hex)
    ensures GetFirmwareUrl(pagesBase, r) == Err(NoHexAsset) <==>
      ManifestFirmware(r).None? && |AssetLinks(r)| > 0 &&
      forall i :: 0 <= i < |AssetLinks(r)| ==> !IsHexLink(AssetLinks(r)[i])
    ensures GetFirmwareUrl(pagesBase, r) == Err(NoFirmwareUrl) <==>
      ManifestFirmware(r).None? && AssetLinks(r) == []
  {
  }

  /** A URL returned comes from a HEX marker: the manifest's permanent
      artifact declared or named as HEX, its `hex` field, or the first
      asset link named or addressed as HEX. The manifest, when present,
      decides alone: asset links are then never consulted. */
  lemma UrlComesFromHexMarker(pagesBase: string, r: Release)
    requires GetFirmwareUrl(pagesBase, r).Ok?
    ensures var u := GetFirmwareUrl(pagesBase, r).value;
      match ManifestFirmware(r)
      case Some(fw) =>
        || (PermanentIsHex(fw) && u == Some(pagesBase + "/latest/" + fw.permanent.value))
        || (Truthy(fw.hex) && u == Some(pagesBase + "/latest/" + fw.hex.value))
      case None =>
        exists k :: 0 <= k < |AssetLinks(r)| && IsHexLink(AssetLinks(r)[k]) &&
          (forall i :: 0 <= i < k ==> !IsHexLink(AssetLinks(r)[i])) &&
          (u == AssetLinks(r)[k].directAssetUrl || u == AssetLinks(r)[k].url)
  {
    if ManifestFirmware(r).None? {
      FindHexLinkFirst(AssetLinks(r));
    }
  }

  /** A release whose manifest declares its artifact as HEX but names a
      `.bin` file gets that `.bin` URL: the HEX test here trusts the
      declared type. */
  lemma DeclaredHexMayNameBin()
    ensures var fw := Firmware(Some("fw.bin"), Some("hex"), None);
      var r := Release("v1", Some(Manifest(Some(Artifacts(Some(fw))))), None);
      GetFirmwareUrl(".", r) == Ok(Some("./latest/fw.bin"))
  {
    var fw := Firmware(Some("fw.bin"), Some("hex"), None);
    assert PermanentIsHex(fw);
    assert "." + "/latest/" + "fw.bin" == "./latest/fw.bin";
  }
}
