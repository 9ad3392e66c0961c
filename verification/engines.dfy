/** The four comparison engines the pipeline knows, with the names used on the command
    line, in result-file names and in the merged table's `p_<engine>` columns. */
module Engines {
  import opened Wrappers

  /** FaceNet (local embedding), DeepFace with ArcFace (local embedding),
      AWS Rekognition CompareFaces (remote), Face++ compare (remote). */
  datatype Engine = FaceNet | DeepFace | Aws | FacePP

  function Name(e: Engine): string {
    match e
    case FaceNet => "facenet"
    case DeepFace => "deepface"
    case Aws => "aws"
    case FacePP => "facepp"
  }

  /** The names the command line recognises. */
  const KnownNames: set<string> := {"facenet", "deepface", "aws", "facepp"}

  /** The engine a (lower-cased, stripped) command-line name denotes, if any. */
  function FromName(s: string): (r: Option<Engine>)
    ensures r.Some? ==> Name(r.value) == s
    ensures r.None? <==> s !in KnownNames
  {
    if s == "facenet" then Some(FaceNet)
    else if s == "deepface" then Some(DeepFace)
    else if s == "aws" then Some(Aws)
    else if s == "facepp" then Some(FacePP)
    else None
  }

  /** Every engine is found again from its name, so names are distinct. */
  lemma NameRoundTrip(e: Engine)
    ensures FromName(Name(e)) == Some(e)
  {
  }

  /** The file an engine's runner writes inside the output directory. */
  function ResultFile(e: Engine): string
  {
    Name(e) + "_results.csv"
  }
}
