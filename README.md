# Certbot certificate expiry exporter — a Dafny model

The exporter keeps two Prometheus gauges about the certificates Certbot has issued:
`certbot_certificate_expiration`, the days left until each certificate expires, and
`certbot_certificate_expiration_date`, its expiry instant in epoch seconds. Both are
labelled by the certificate's name. A `MetricsCollector` object holds the configuration
directory and the two gauges. One call of `collect_metrics` does a full cycle: it lists
the directory, reads `<child>/cert.pem` for each child that has one, and decodes every
certificate. Only then does it write both gauges for each certificate, in listing order.

This project models that class.

- `Errors` (`errors.dfy`): the ways a call fails, as values, and the `Result` and
  `Outcome` types that carry them.
- `SubjectLabel` (`subject_label.dfy`): the certificate name. It is the RFC 4514
  string form of the subject with every `"CN="` removed, as Python's `str.replace`
  removes it.
- `Expiry` (`expiry.dfy`): days left and epoch seconds. Instants are integer
  microseconds since the epoch, UTC.
- `CertStore` (`cert_store.dfy`): the directory as a list of children, and the scan
  that `list(get_certificates())` performs.
- `Projection` (`projection.dfy`): the write loop of `collect_metrics` as a function of
  the two label maps, with its properties.
- `Collector` (`collector.dfy`): the class `MetricsCollector`, whose methods update the
  directory and the gauge maps in place. It also holds `Cycle`, the specification of one
  collection cycle, and the cycle-level properties.

The code makes these choices, and the model keeps them:

- A certificate file that cannot be decoded does not just skip that certificate. It
  fails the whole cycle before anything is written, because the generator is consumed
  by `list(...)` first.
- A refused gauge write is not isolated either. It ends the cycle, and the writes made
  before it stay.
- The name removes every non-overlapping `"CN="`, scanning from the left, not only a
  leading one.
- The cycle returns only success or the first failure. It does not return a report
  with counts.

## Model

| member | source | states |
|---|---|---|
| `SubjectLabel.RemoveAllWithoutOccurrence` | src/metrics_collector.py:91 | a string that contains no occurrence of the pattern comes back unchanged |
| `SubjectLabel.RemoveAllAtLeftmost` | src/metrics_collector.py:91 | removal follows Python's scan: the text before the leftmost occurrence is kept, that occurrence is dropped, and the scan resumes right after it |
| `SubjectLabel.RemoveAll` | src/metrics_collector.py:91 | the result is never longer than the input, and a leading occurrence shortens it by at least the pattern's length; `RemoveAllWithoutOccurrence`, `RemoveAllAtLeftmost` and `RemoveAllShortens` characterise it |
| `SubjectLabel.RemoveAllShortens` | src/metrics_collector.py:91 | the string gets shorter if and only if it contains the pattern |
| `SubjectLabel.CertificateName` | src/metrics_collector.py:91 | the name is never longer than the subject, and is shorter if and only if the subject contains `"CN="`; the `CertificateName*` lemmas below pin it down further |
| `SubjectLabel.CertificateNameWithoutTag` | src/metrics_collector.py:91 | a subject without `"CN="` is its own name |
| `SubjectLabel.CertificateNameOfCommonName` | src/metrics_collector.py:91 | `"CN="` followed by a domain that contains no `"CN="` is named by that domain |
| `SubjectLabel.CertificateNameRemovesEveryTag` | src/metrics_collector.py:91 | a `"CN="` that is not at the start is removed too, and other attribute tags stay (`O=x,CN=y` becomes `O=x,y`) |
| `SubjectLabel.CertificateNameNotIdempotent` | src/metrics_collector.py:91 | the removal is a single left-to-right pass: `CNCN==` becomes `CN=`, and naming that again gives the empty string |
| `Expiry.ExpirationInstant` | src/metrics_collector.py:73-74 | the expiry instant, taken as UTC, is the certificate's whole second exactly, with no fraction |
| `Expiry.DaysLeft` | src/metrics_collector.py:90 | the day count d satisfies d days <= expiry - now < d + 1 days, i.e. it is the floor |
| `Expiry.EpochSeconds` | src/metrics_collector.py:95 | `int(timestamp())` cuts toward zero: the whole seconds within one second of the instant, on the side of zero |
| `Expiry.DaysLeftUnique` | src/metrics_collector.py:90 | any integer within the floor bounds equals the day count |
| `Expiry.DaysLeftSign` | src/metrics_collector.py:90 | the day count is negative if and only if the certificate has expired, and 0 if and only if less than a day remains |
| `Expiry.DaysLeftMonotonic` | src/metrics_collector.py:90 | a later expiry or an earlier clock never gives fewer days |
| `Expiry.DaysLeftExamples` | src/metrics_collector.py:90 | +10 days gives 10; +10.5 days gives 10; -1 day gives -1; -1 microsecond gives -1 |
| `Expiry.EpochSecondsOfExpiration` | src/metrics_collector.py:89-95 | the date gauge receives exactly the certificate's "not valid after" second, even before 1970 |
| `Expiry.EpochSecondsTruncates` | src/metrics_collector.py:95 | before the epoch, truncation differs from the floor (-0.5 s becomes 0, -1.5 s becomes -1) |
| `CertStore.Join` | src/metrics_collector.py:51 | the joined path starts with the directory and ends with the child name; an empty directory gives the child name alone; otherwise exactly one `/` separates them, unless the directory already ends in `/`, when none is added |
| `CertStore.Scan` | src/metrics_collector.py:50-63 | a successful scan yields at most one certificate per child; a failed one fails with a read or decode error; `ScanSucceedsIffAllDecode`, `ScanFailsAtFirst` and `ScanSkipsMissing` characterise it |
| `CertStore.ScanDir` | src/metrics_collector.py:50 | the scan fails with `ListingFailed` if and only if the directory cannot be listed (it is missing, is not a directory, or listing it is refused) |
| `CertStore.ScanSucceedsIffAllDecode` | src/metrics_collector.py:50-63 | the scan succeeds if and only if no present `cert.pem` fails to read or decode; it then yields every certificate in listing order |
| `CertStore.ScanFailsAtFirst` | src/metrics_collector.py:55-63 | a failed scan reports the first failing child in listing order |
| `CertStore.ScanSkipsMissing` | src/metrics_collector.py:50-53 | a child without `cert.pem`, at any position, adds neither a certificate nor an error |
| `CertStore.PemCertificatesEmpty` | src/metrics_collector.py:50-53 | the list of certificates is empty if and only if no child holds a certificate |
| `Projection.Name` | src/metrics_collector.py:91 | the label is shorter than the subject if and only if the subject contains `"CN="` |
| `Projection.DaysValue` | src/metrics_collector.py:89-90 | the days value is negative if and only if the certificate expired before `now` |
| `Projection.DateValue` | src/metrics_collector.py:89-95 | the date value is exactly the certificate's "not valid after" second |
| `Projection.Record` | src/metrics_collector.py:89-98 | one certificate's two writes: the days gauge gets the days value under the name if that write is accepted; the date gauge gets the expiry second only if both writes are accepted; the step passes if and only if both are accepted, and fails with `GaugeWriteFailed` of the name otherwise |
| `Projection.Project` | src/metrics_collector.py:88-98 | the loop never removes an entry from either gauge, and fails only with `GaugeWriteFailed`; `ProjectIsOverride`, `ProjectOutcome`, `ProjectStopsAtRefusal`, `ProjectAllAccepted` and `ProjectIdempotent` characterise it |
| `Projection.ProjectIsOverride` | src/metrics_collector.py:88-98 | each gauge after the loop is its previous map overridden by what the loop writes, and what the loop writes does not depend on the previous map |
| `Projection.ProjectKeepsOtherNames` | src/metrics_collector.py:88-98 | a name that no certificate of the cycle carries keeps its entry and value in both gauges, or stays absent |
| `Projection.ProjectAllAccepted` | src/metrics_collector.py:88-95 | when every write is accepted, both gauges gain every name, and a shared name gets the values of the last certificate with that name |
| `Projection.ProjectOutcome` | src/metrics_collector.py:93-98 | the loop succeeds if and only if every write is accepted; otherwise it fails with the name of the first refused certificate |
| `Projection.ProjectStopsAtRefusal` | src/metrics_collector.py:93-98 | a refused write ends the loop; earlier writes stay, including the days value of the refused certificate when only the date gauge refused it |
| `Projection.ProjectIdempotent` | src/metrics_collector.py:88-98 | running the loop a second time on its own result changes nothing |
| `Collector.Cycle` | src/metrics_collector.py:82-98 | a cycle never removes a gauge entry, and a cycle that fails before the write loop (listing, read or decode) leaves both gauges unchanged; the `Cycle*` lemmas below characterise it |
| `Collector.CycleOnUnlistableDirectory` | src/metrics_collector.py:38-50 | a directory that passes the `isdir` check but cannot be listed fails the cycle with `ListingFailed` and changes neither gauge |
| `Collector.CycleDecodeFailureChangesNothing` | src/metrics_collector.py:58-63 | if any present `cert.pem` fails, the cycle fails with the first failing file's error and neither gauge changes |
| `Collector.CycleWithoutCertificatesChangesNothing` | src/metrics_collector.py:82-85 | with no certificate in the store, the cycle succeeds and both gauges are unchanged |
| `Collector.CycleKeepsOtherNames` | src/metrics_collector.py:82-98 | entries of certificates that are no longer in the store keep their last values, whatever the outcome |
| `Collector.CycleAllSucceed` | src/metrics_collector.py:82-95 | when everything decodes and every write is accepted, the cycle succeeds; every name is in both gauges with the floor of the days left and the expiry second of the last certificate with that name |
| `Collector.CycleIdempotent` | src/metrics_collector.py:76-98 | two cycles over an unchanged store with the same clock give the same result as one |
| `Collector.CycleExample` | src/metrics_collector.py:76-98 | a store with `a/cert.pem` for `CN=alice` expiring in 5 days and a child `b` without `cert.pem` gives `{alice: 5}` and `{alice: <expiry second>}` |
| `Collector.MetricsCollector.Unconfigured` | src/metrics_collector.py:23-30 | a fresh object has an empty directory and two empty gauges |
| `Collector.MetricsCollector.Create` | src/metrics_collector.py:17-30 | construction fails with `NotADirectory` if and only if the path is not a directory; otherwise the directory is set and both gauges are empty |
| `Collector.MetricsCollector.SetConfigDir` | src/metrics_collector.py:32-42 | a path that is not a directory is rejected and the directory is left as it was; otherwise the directory becomes the path, even when it cannot be listed |
| `Collector.MetricsCollector.GetCertificates` | src/metrics_collector.py:44-63 | the loop returns exactly the scan of the current directory: a listing failure when the directory cannot be listed, the first read or decode error, or all certificates in order |
| `Collector.MetricsCollector.CollectMetrics` | src/metrics_collector.py:76-98 | the new gauge maps and the outcome are those of `Cycle` applied to the old maps |

## Left out

- File system access (`os.listdir`, `os.path.isdir`, `os.path.isfile`, `open`/`read`) is I/O. The file system is a value, `CertStore.FileSystem`, that maps each directory to its children in the order the OS lists them, plus the set of directories whose listing fails (for example for lack of permission). `os.path.isdir` holds for every directory in the map; `os.listdir` succeeds only for those outside that set. The directory can change between `set_config_dir` and a later cycle; each call takes the file system as it then is. Each child states what stands at its `cert.pem`: nothing, a file that cannot be read, a file that cannot be decoded, or a decodable certificate.
- X.509 PEM decoding and RFC 4514 subject rendering are done by the `cryptography` library, a foreign call. A decodable certificate is given directly by its subject string and its "not valid after" second.
- `get_expiration_date` reinterprets the decoded time as UTC. X.509 times are UTC (section 4.1.2.5 of RFC 5280), so the model takes "not valid after" as a UTC instant. A non-UTC decoded value, where the reinterpretation would shift the instant, is not modelled.
- `datetime.now` is the parameter `now`. The source reads the clock after the scan; that order has no effect on the model.
- Float arithmetic in `timestamp()` is not modelled. Certificate times are whole seconds and are kept as integers; rounding of very large floats is not captured.
- Gauge internals, the registration of metric names in the global Prometheus registry, and thread safety against concurrent scrapes are library concerns and concurrency. A gauge is its label map. A refused write is decided by the parameter `accepts`, a fixed predicate of gauge and name. A transient failure that hits one write of a name but not another write of the same name in the same cycle is not captured.
- `HTTPException` status codes and the `logger` calls are not modelled. Each failure is an `Errors.Error` value carrying the path or name that the message names.
- `Collector.MetricsCollector.Create`: the source creates the gauges after setting the directory. The model creates them empty first; no caller can observe the difference.
