/**
  The output-name rule of `rz_process_file` (src/rzip.cc:119-142), which
  qzip repeats with its own extension (src/qzip.cc:637-660), and the
  compress/decompress dispatch of `rz_process_fd` (src/rzip.cc:67-77).
  A file name is modelled as the characters of the C string before its
  terminating NUL, which is all that `strlen` and `strcmp` read.
*/
module Naming {

  const RzExtension: string := ".rz"
  const QzExtension: string := ".qz"

  /** What the rule decides for one input file. */
  datatype Decision =
    | Output(name: string)   // the file is processed into `name`
    | AlreadySuffixed        // compressing a name that already carries the extension
    | UnknownSuffix          // decompressing a name that does not carry it

  /**
    The string `strcmp` compares with the extension: the last `|ext|`
    characters when the extension is strictly shorter than the name, and
    otherwise the empty string at the end of the name.
  */
  function Tail(name: string, ext: string): (t: string)
    ensures |t| <= |name|
    ensures t == "" || (|ext| < |name| && t == name[|name| - |ext|..])
  {
    if |ext| < |name| then name[|name| - |ext|..] else ""
  }

  predicate HasExtension(name: string, ext: string) {
    Tail(name, ext) == ext
  }

  function OutputName(name: string, ext: string, compress: bool): (r: Decision)
    requires ext != ""
    ensures r.Output? <==> compress != HasExtension(name, ext)
    ensures r.Output? && compress ==> |r.name| == |name| + |ext| && r.name[..|name|] == name
    ensures r.Output? && !compress ==> |r.name| + |ext| == |name| && name[..|r.name|] == r.name
    ensures r == AlreadySuffixed <==> compress && HasExtension(name, ext)
  {
    if HasExtension(name, ext) then
      if compress then AlreadySuffixed else Output(name[..|name| - |ext|])
    else
      if compress then Output(name + ext) else UnknownSuffix
  }

  /**
    A name is suffixed only when it is strictly longer than the extension,
    so the extension alone, or anything shorter, is never treated as suffixed.
  */
  lemma SuffixNeedsLongerName(name: string, ext: string)
    requires ext != ""
    ensures HasExtension(name, ext) <==> |ext| < |name| && name[|name| - |ext|..] == ext
  {
  }

  /**
    Compressing a non-empty name that lacks the extension and then
    decompressing the result gives the name back; the empty name becomes the
    bare extension, which decompression then rejects.
  */
  lemma {:induction false} CompressThenDecompress(name: string, ext: string)
    requires ext != "" && !HasExtension(name, ext)
    ensures OutputName(name, ext, true) == Output(name + ext)
    ensures name != "" ==> OutputName(name + ext, ext, false) == Output(name)
    ensures name == "" ==> OutputName(name + ext, ext, false) == UnknownSuffix
  {
    var n := name + ext;
    assert n[|n| - |ext|..] == ext;
    if name != "" {
      assert n[..|n| - |ext|] == name;
    } else {
      assert n == ext;
    }
  }

  /** The rzip instance, with the ".rz" extension (src/rzip.cc:38). */
  lemma RzipNames(name: string)
    ensures !HasExtension(name, RzExtension) ==> OutputName(name, RzExtension, true) == Output(name + ".rz")
    ensures !HasExtension(name, RzExtension) ==> OutputName(name, RzExtension, false) == UnknownSuffix
    ensures HasExtension(name, RzExtension) ==> OutputName(name, RzExtension, true) == AlreadySuffixed
    ensures HasExtension(name, RzExtension) ==>
      |name| > 3 && OutputName(name, RzExtension, false) == Output(name[..|name| - 3])
    ensures OutputName(".rz", RzExtension, false) == UnknownSuffix
  {
    assert Tail(".rz", RzExtension) == "";
  }

  /** The qzip instance, with the ".qz" extension (src/qzip.cc:135). */
  lemma QzipNames(name: string)
    ensures !HasExtension(name, QzExtension) ==> OutputName(name, QzExtension, true) == Output(name + ".qz")
    ensures HasExtension(name, QzExtension) ==>
      |name| > 3 && OutputName(name, QzExtension, false) == Output(name[..|name| - 3])
    ensures OutputName("a.qz", QzExtension, true) == AlreadySuffixed
  {
    assert Tail("a.qz", QzExtension) == ".qz";
  }

  /** The two processing stubs `rz_process_fd` chooses between. */
  datatype Stage = Compress | Decompress

  /** `rz_compress` and `rz_decompress` (src/rzip.cc:67-73): both report failure. */
  function RunStage(stage: Stage): (ok: bool)
    ensures !ok
  {
    match stage
    case Compress => false
    case Decompress => false
  }

  /** `rz_process_fd` (src/rzip.cc:75-77): compresses iff asked to, and fails either way. */
  function ProcessFd(compress: bool): (r: (Stage, bool))
    ensures r.0 == Compress <==> compress
    ensures !r.1
  {
    var stage := if compress then Compress else Decompress;
    (stage, RunStage(stage))
  }
}
