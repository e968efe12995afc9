/** `images_manifest.json`, the one file the two scripts share: the downloader
    writes it next to the tar files and the importer reads it back to compare
    against the tar files it found. Modelled after JSON decoding, as records. */
module ManifestFormat {

  /** One element of the `images` array: `name`, `file`, `size_bytes`. */
  datatype Entry = Entry(name: string, file: string, sizeBytes: nat)

  /** The whole document: `generated_at`, `total_images`, `images`. */
  datatype Manifest = Manifest(generatedAt: string, totalImages: nat, images: seq<Entry>)

  /** The set of `file` fields (`{img['file'] for img in manifest['images']}`). */
  function FileSet(m: Manifest): (files: set<string>)
    ensures forall i :: 0 <= i < |m.images| ==> m.images[i].file in files
    ensures forall f :: f in files ==> exists i :: 0 <= i < |m.images| && m.images[i].file == f
  {
    set i | 0 <= i < |m.images| :: m.images[i].file
  }
}
