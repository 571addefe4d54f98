/** The upload filter of inc/media.php: SVG files are allowed, BMP files are not. */
module Media {
  import opened PhpStrings
  import opened PhpArrays

  const SvgMime := "image/svg+xml"

  /** alter_mime_types: "svg" maps to the SVG type, "bmp" is removed. */
  function AlterMimeTypes(mimes: PhpArray<string>): PhpArray<string> {
    Unset(Set(mimes, "svg", SvgMime), "bmp")
  }

  /** After the filter "svg" maps to the SVG type, "bmp" is gone, every other
      extension keeps its type, no key is repeated, and a second pass changes
      nothing more. */
  lemma {:induction false} AlterMimeTypesSpec(mimes: PhpArray<string>)
    requires DistinctKeys(mimes)
    ensures DistinctKeys(AlterMimeTypes(mimes))
    ensures Get(AlterMimeTypes(mimes), "svg") == Some(SvgMime)
    ensures !HasKey(AlterMimeTypes(mimes), "bmp")
    ensures forall k :: k != "svg" && k != "bmp" ==> Get(AlterMimeTypes(mimes), k) == Get(mimes, k)
    ensures AlterMimeTypes(AlterMimeTypes(mimes)) == AlterMimeTypes(mimes)
  {
    var withSvg := Set(mimes, "svg", SvgMime);
    SetSpec(mimes, "svg", SvgMime);
    UnsetSpec(withSvg, "bmp");
    var r := AlterMimeTypes(mimes);
    SetSame(r, "svg", SvgMime);
    UnsetSpec(r, "bmp");
  }
}
