/** The Go server's answers against the Python parser's verdicts. */
module Verdicts {
  import opened Bytes
  import opened Frames
  import opened Messages
  import opened Paths
  import opened PythonServer
  import opened OneVerdict
  import opened Resolver
  import opened Exchanges

  /** Whatever is on disk, only the path itself decides whether it is a bad one. */
  lemma BadPathIsBad(fs: FileSystem, root: Place, p: bytes)
    ensures Tree(fs, root)(p).BadPath? <==> !PathOk(p)
  {
  }

  /**
   For every REQUEST on a valid stream and every file system, the server answers 400 exactly when
   the Python parser raises Malformed.
   */
  lemma TwoServersOneVerdict(f: Frame, fs: FileSystem, root: Place)
    requires f.typ == REQUEST && f.stream != 0
    ensures FirstStatus(Answer(f, Tree(fs, root))) == Some(400) <==> PyRequest(f.flags, f.payload).None?
  {
    AnswerReports(f, Tree(fs, root));
    TwoParsersOneVerdict(f.flags, f.payload);
    if ParseRequest(f.payload).Some? {
      BadPathIsBad(fs, root, ParseRequest(f.payload).value.path);
    }
  }
}
