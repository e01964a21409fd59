/** One file's conversion (`_convert_single`): the target path, decoding, the quality search and
    the write of the JPEG bytes. */
module Conversion {
  import opened Wrappers
  import opened Codec
  import opened Paths
  import opened FileStore
  import opened QualitySearch

  const JpegSuffix: string := ".jpg"

  /** What `_convert_single` returns: `(target, quality, len(data))`. */
  datatype Converted = Converted(target: Path, quality: int, size: nat)

  /** The ValueError `with_suffix` raises for a path with an empty name. */
  function EmptyNameMessage(p: Path): string {
    "'" + PathString(p) + "' has an empty name"
  }

  /** `_convert_single` on a volume. `image` is what opening and RGB-converting the source yields:
      its encoder, or the message of the exception the decoder raised. */
  function ConvertStep(vol: Volume, src: Path, image: Result<Encoder, string>, writeFault: Option<string>)
    : (r: (Volume, Result<Converted, string>))
    ensures r.1.Success? <==> src.name != "" && src in vol.files && image.Success? && writeFault.None?
    ensures r.1.Failure? ==> r.0 == vol
    ensures src.name != "" && src !in vol.files ==> r.1 == Failure(NoSuchFileMessage(src))
    ensures r.1.Success? ==>
      var c := r.1.value;
      var e := Search(image.value);
      && Some(c.target) == WithSuffix(src, JpegSuffix)
      && c.quality == e.quality
      && c.size == |e.data|
      && r.0 == vol.(files := vol.files[c.target := e.data])
      && QualityMin <= c.quality <= QualityMax
      && (c.size <= TargetMaxBytes || c.quality == QualityMin)
  {
    match WithSuffix(src, JpegSuffix)
    case None => (vol, Failure(EmptyNameMessage(src)))
    case Some(target) =>
      if src !in vol.files then (vol, Failure(NoSuchFileMessage(src)))
      else match image
        case Failure(msg) => (vol, Failure(msg))
        case Success(enc) =>
          var e := Search(enc);
          SearchBounds(enc);
          var w := WriteStep(vol, target, e.data, writeFault);
          if w.outcome.Fail? then (w.vol, Failure(w.outcome.error))
          else (w.vol, Success(Converted(target, e.quality, |e.data|)))
  }

  /** `_convert_single`. */
  method ConvertSingle(fs: FileSystem, src: Path, image: Result<Encoder, string>, writeFault: Option<string>)
    returns (r: Result<Converted, string>)
    modifies fs
    ensures (fs.Snapshot(), r) == ConvertStep(old(fs.Snapshot()), src, image, writeFault)
  {
    var target := WithSuffix(src, JpegSuffix);
    if target.None? {
      return Failure(EmptyNameMessage(src));
    }
    if src !in fs.files {
      return Failure(NoSuchFileMessage(src));
    }
    if image.Failure? {
      return Failure(image.error);
    }
    var data: Bytes, quality: int;
    ghost var probes: nat;
    data, quality, probes := EncodeWithTargetSize(image.value);
    var written := fs.WriteBytes(target.value, data, writeFault);
    if written.Fail? {
      return Failure(written.error);
    }
    r := Success(Converted(target.value, quality, |data|));
  }
}
