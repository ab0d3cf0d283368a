/**
 * resource/apple_root_ca.py: `AppleRootCA`, a process-wide cache of the
 * Apple root certificate. The certificate is read from the file named by the
 * `APPLE_ROOT_CA_PATH` environment variable the first time it is asked for.
 * The environment variable is a parameter, and so is the file system together
 * with PEM decoding: a function from a path to the outcome of loading it.
 */
module RootCA {
  import opened Wrappers
  import Bytes

  /** A parsed X.509 certificate, kept as its DER bytes. */
  datatype Cert = Cert(der: seq<Bytes.byte>)

  /** What opening, reading and parsing the file at a path gives. */
  datatype LoadOutcome =
    | Loaded(cert: Cert)       // the file held a PEM certificate
    | NotFound                 // `FileNotFoundError`: logged
    | Failed(reason: string)   // any other exception (unreadable file, not a certificate): printed

  /**
   * The cached certificate after one call of `get_root_cert`: an existing
   * certificate is kept; otherwise it is loaded from the path, and stays
   * absent when the variable is unset (opening `None` raises) or loading fails.
   */
  function AfterGet(cached: Option<Cert>, path: Option<string>, load: string -> LoadOutcome): (r: Option<Cert>)
    ensures cached.Some? ==> r == cached
    ensures cached.None? ==> (r.Some? <==> path.Some? && load(path.value).Loaded?)
    ensures cached.None? && r.Some? ==> r.value == load(path.value).cert
  {
    if cached.Some? then cached
    else if path.None? then None
    else match load(path.value)
      case Loaded(cert) => Some(cert)
      case NotFound => None
      case Failed(_) => None
  }

  /** The class attribute `ROOT_CERT`, shared by every caller. */
  class AppleRootCA {
    var rootCert: Option<Cert>

    /** The attribute starts as None. */
    constructor()
      ensures rootCert.None?
    {
      rootCert := None;
    }

    /** `get_root_cert`: loads the certificate on first use and returns the cached value. */
    method GetRootCert(path: Option<string>, load: string -> LoadOutcome) returns (cert: Option<Cert>)
      modifies this
      ensures rootCert == AfterGet(old(rootCert), path, load)
      ensures cert == rootCert
    {
      if rootCert.None? {
        if path.Some? {
          var outcome := load(path.value);
          match outcome {
            case Loaded(c) =>
              rootCert := Some(c);
            case NotFound =>
            case Failed(_) =>
          }
        }
      }
      cert := rootCert;
    }
  }

  /** The cache after a series of calls. */
  function Replay(cached: Option<Cert>, paths: seq<Option<string>>, loads: seq<string -> LoadOutcome>): Option<Cert>
    requires |paths| == |loads|
    decreases |paths|
  {
    if paths == [] then cached else Replay(AfterGet(cached, paths[0], loads[0]), paths[1..], loads[1..])
  }

  /**
   * Once a certificate is cached, later calls return it whatever the
   * variable now says and whatever the file now holds.
   */
  lemma {:induction false} CachedForever(cached: Option<Cert>, paths: seq<Option<string>>, loads: seq<string -> LoadOutcome>)
    requires cached.Some? && |paths| == |loads|
    ensures Replay(cached, paths, loads) == cached
  {
    if paths != [] {
      CachedForever(AfterGet(cached, paths[0], loads[0]), paths[1..], loads[1..]);
    }
  }

  /**
   * A failed load is not remembered: a later call with a loadable file
   * yields that file's certificate.
   */
  lemma RetryAfterFailure(path: Option<string>, load: string -> LoadOutcome, retryPath: string, retryLoad: string -> LoadOutcome)
    requires path.None? || !load(path.value).Loaded?
    requires retryLoad(retryPath).Loaded?
    ensures AfterGet(AfterGet(None, path, load), Some(retryPath), retryLoad) == Some(retryLoad(retryPath).cert)
  {
  }
}
