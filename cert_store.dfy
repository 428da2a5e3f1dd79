/** The certificate store as the collector sees it: the configuration directory's
    children, each of which may hold a `cert.pem`. Reading the file and decoding the
    X.509 certificate are outside the model; what they yield for a child is part of
    the child's description. */
module CertStore {
  import opened Errors

  /** What decoding a certificate gives: the RFC 4514 string form of its subject and
      its "not valid after" field in whole seconds since the epoch, UTC. */
  datatype Certificate = Certificate(subject: string, notAfterSecs: int)

  /** What stands at `<child>/cert.pem`. */
  datatype CertFile =
    | Missing             // no regular file there: the child is skipped
    | Unreadable          // the file is there but reading it fails
    | Unparsable          // the file is read but is not a PEM X.509 certificate
    | Pem(cert: Certificate)

  /** One entry of the configuration directory, in listing order. */
  datatype Child = Child(name: string, certFile: CertFile)

  /** The directories of the file system, what each one lists, and the directories
      that exist but cannot be listed (for instance for lack of permission). */
  datatype FileSystem = FileSystem(dirs: map<string, seq<Child>>, unlistable: set<string>)
  {
    /** `os.path.isdir`. */
    predicate IsDir(path: string)
    {
      path in dirs
    }

    /** `os.listdir` succeeds. */
    predicate Listable(path: string)
    {
      path in dirs && path !in unlistable
    }
  }

  const CertFileName: string := "cert.pem"

  /** `os.path.join(a, b)` for a relative `b`: a separator is added unless `a` is
      empty or already ends in one. */
  function Join(a: string, b: string): (r: string)
    ensures |r| >= |a| + |b|
    ensures r[..|a|] == a && r[|r| - |b|..] == b
    ensures a == [] ==> r == b
    ensures a != [] && a[|a| - 1] == '/' ==> |r| == |a| + |b|
    ensures a != [] && a[|a| - 1] != '/' ==> |r| == |a| + |b| + 1 && r[|a|] == '/'
  {
    if a == [] || a[|a| - 1] == '/' then a + b else a + "/" + b
  }

  function CertPath(dir: string, child: Child): string
  {
    Join(Join(dir, child.name), CertFileName)
  }

  /** The child stops the scan. */
  predicate Fails(child: Child)
  {
    child.certFile.Unreadable? || child.certFile.Unparsable?
  }

  /** How a child that stops the scan is reported. */
  function FailureOf(dir: string, child: Child): Error
    requires Fails(child)
  {
    if child.certFile.Unreadable? then ReadFailed(CertPath(dir, child))
    else ParseFailed(CertPath(dir, child))
  }

  /** `list(get_certificates())`: the certificates of the children in listing order,
      children without `cert.pem` skipped; the first child whose file cannot be read
      or decoded ends the scan with its error, and nothing scanned before it is kept. */
  function Scan(dir: string, children: seq<Child>): (r: Result<seq<Certificate>>)
    ensures r.Ok? ==> |r.value| <= |children|
    ensures r.Err? ==> r.error.ReadFailed? || r.error.ParseFailed?
  {
    if children == [] then Ok([])
    else
      var child := children[0];
      match child.certFile
      case Missing => Scan(dir, children[1..])
      case Unreadable => Err(FailureOf(dir, child))
      case Unparsable => Err(FailureOf(dir, child))
      case Pem(cert) =>
        match Scan(dir, children[1..])
        case Ok(rest) => Ok([cert] + rest)
        case Err(e) => Err(e)
  }

  /** The scan of the configuration directory; a directory that is gone, or that
      exists but cannot be listed, fails before any child is looked at. */
  function ScanDir(fs: FileSystem, dir: string): (r: Result<seq<Certificate>>)
    ensures r == Err(ListingFailed(dir)) <==> !fs.Listable(dir)
  {
    if fs.Listable(dir) then Scan(dir, fs.dirs[dir]) else Err(ListingFailed(dir))
  }

  /** The certificates of the children that hold one, in listing order: the reference
      against which the scan is measured. */
  function PemCertificates(children: seq<Child>): seq<Certificate>
  {
    if children == [] then []
    else if children[0].certFile.Pem? then [children[0].certFile.cert] + PemCertificates(children[1..])
    else PemCertificates(children[1..])
  }

  /** The scan succeeds exactly when no child's file fails to read or decode, and then
      yields every certificate in listing order. */
  lemma {:induction false} ScanSucceedsIffAllDecode(dir: string, children: seq<Child>)
    ensures Scan(dir, children).Ok? <==> forall i :: 0 <= i < |children| ==> !Fails(children[i])
    ensures Scan(dir, children).Ok? ==> Scan(dir, children).value == PemCertificates(children)
  {
    if children != [] {
      ScanSucceedsIffAllDecode(dir, children[1..]);
      if !Fails(children[0]) {
        forall i | 1 <= i < |children| ensures children[i] == children[1..][i - 1] {
        }
      }
    }
  }

  /** Child `i` is the first in listing order whose file fails. */
  predicate FirstFailureAt(children: seq<Child>, i: int)
  {
    0 <= i < |children| && Fails(children[i]) && forall j :: 0 <= j < i ==> !Fails(children[j])
  }

  /** A failing scan reports the first child in listing order whose file fails. */
  lemma {:induction false} ScanFailsAtFirst(dir: string, children: seq<Child>)
    requires Scan(dir, children).Err?
    ensures exists i :: FirstFailureAt(children, i) && Scan(dir, children).error == FailureOf(dir, children[i])
  {
    if !Fails(children[0]) {
      var rest := children[1..];
      ScanFailsAtFirst(dir, rest);
      var i :| FirstFailureAt(rest, i) && Scan(dir, rest).error == FailureOf(dir, rest[i]);
      assert children[i + 1] == rest[i];
      forall j | 1 <= j < i + 1 ensures !Fails(children[j]) {
        assert children[j] == rest[j - 1];
      }
      assert FirstFailureAt(children, i + 1);
    } else {
      assert FirstFailureAt(children, 0);
    }
  }

  /** The scan yields no certificate exactly when no child holds a decodable one. */
  lemma {:induction false} PemCertificatesEmpty(children: seq<Child>)
    ensures PemCertificates(children) == [] <==> forall i :: 0 <= i < |children| ==> !children[i].certFile.Pem?
  {
    if children != [] {
      PemCertificatesEmpty(children[1..]);
      assert forall i :: 1 <= i < |children| ==> children[i] == children[1..][i - 1];
    }
  }

  /** A child without `cert.pem`, wherever it stands in the listing, contributes neither
      a certificate nor an error. */
  lemma {:induction false} ScanSkipsMissing(dir: string, before: seq<Child>, name: string, after: seq<Child>)
    ensures Scan(dir, before + [Child(name, Missing)] + after) == Scan(dir, before + after)
  {
    if before == [] {
      assert (before + [Child(name, Missing)] + after)[1..] == after;
      assert before + after == after;
    } else {
      ScanSkipsMissing(dir, before[1..], name, after);
      assert (before + [Child(name, Missing)] + after)[1..] == before[1..] + [Child(name, Missing)] + after;
      assert (before + after)[1..] == before[1..] + after;
    }
  }
}
