/**
  The S3 buckets and the message queue that the Celery tasks use. Every call may fail; when an upload, copy or
  delete fails its effect may nevertheless have happened, because only the acknowledgement was lost.
 */
module Storage {
  import opened Options
  import opened PdfStitching

  /** An object in a bucket: bytes as somebody uploaded them, or a document that this service wrote. */
  datatype File = Upload(bytes: string) | Document(pages: seq<Page>)

  type Objects = map<string, File>

  datatype Bucket = Scan | Sanitised | Backup | Invalid | LettersPdf | TestLetters

  datatype Buckets = Buckets(scan: Objects, sanitised: Objects, backup: Objects, invalid: Objects,
                             lettersPdf: Objects, testLetters: Objects) {
    function In(bucket: Bucket): Objects {
      match bucket
      case Scan => scan
      case Sanitised => sanitised
      case Backup => backup
      case Invalid => invalid
      case LettersPdf => lettersPdf
      case TestLetters => testLetters
    }

    function Put(bucket: Bucket, key: string, file: File): Buckets {
      match bucket
      case Scan => this.(scan := scan[key := file])
      case Sanitised => this.(sanitised := sanitised[key := file])
      case Backup => this.(backup := backup[key := file])
      case Invalid => this.(invalid := invalid[key := file])
      case LettersPdf => this.(lettersPdf := lettersPdf[key := file])
      case TestLetters => this.(testLetters := testLetters[key := file])
    }

    function DropFromScan(key: string): Buckets { this.(scan := scan - {key}) }

    ghost predicate Holds(bucket: Bucket, key: string, file: File) {
      key in In(bucket) && In(bucket)[key] == file
    }
  }

  /** What one worker sees of AWS. The history has the buckets as they are after each call, in order; failures counts
      the S3 calls that raised, failedSends the sends that did; lastRaised says whether the latest call did. */
  class Aws<Message> {
    var buckets: Buckets
    var sent: seq<Message>
    ghost var history: seq<Buckets>
    ghost var failures: nat
    ghost var failedSends: nat
    ghost var lastRaised: bool

    ghost function Raised(): nat
      reads this
    {
      failures + failedSends
    }

    method Download(key: string) returns (file: Option<File>)
      modifies this
      ensures buckets == old(buckets) && sent == old(sent) && history == old(history) + [buckets]
      ensures file.Some? ==> buckets.Holds(Scan, key, file.value)
      ensures failures == old(failures) + (if file.Some? then 0 else 1) && lastRaised == file.None?
      ensures failedSends == old(failedSends)
    {
      var reachable: bool := *;
      file := if reachable && key in buckets.scan then Some(buckets.scan[key]) else None;
      failures, lastRaised := failures + (if file.Some? then 0 else 1), file.None?;
      history := history + [buckets];
    }

    /** A read from a bucket that these tasks never write, possibly answered by a local cache. */
    method ReadElsewhere() returns (ok: bool)
      modifies this
      ensures buckets == old(buckets) && sent == old(sent) && history == old(history) + [buckets]
      ensures failures == old(failures) + (if ok then 0 else 1) && lastRaised == !ok
      ensures failedSends == old(failedSends)
    {
      ok := *;
      failures, lastRaised := failures + (if ok then 0 else 1), !ok;
      history := history + [buckets];
    }

    method UploadTo(bucket: Bucket, key: string, file: File) returns (ok: bool)
      modifies this
      ensures sent == old(sent) && history == old(history) + [buckets]
      ensures buckets == old(buckets).Put(bucket, key, file) || (!ok && buckets == old(buckets))
      ensures failures == old(failures) + (if ok then 0 else 1) && lastRaised == !ok
      ensures failedSends == old(failedSends)
    {
      var happens: bool, acknowledged: bool := *, *;
      if happens {
        buckets := buckets.Put(bucket, key, file);
      }
      ok := happens && acknowledged;
      failures, lastRaised := failures + (if ok then 0 else 1), !ok;
      history := history + [buckets];
    }

    method CopyFromScan(key: string, target: Bucket, targetKey: string) returns (ok: bool)
      modifies this
      ensures sent == old(sent) && history == old(history) + [buckets]
      ensures || (!ok && buckets == old(buckets))
              || (key in old(buckets).scan && buckets == old(buckets).Put(target, targetKey, old(buckets).scan[key]))
      ensures failures == old(failures) + (if ok then 0 else 1) && lastRaised == !ok
      ensures failedSends == old(failedSends)
    {
      var happens: bool, acknowledged: bool := *, *;
      ok := false;
      if happens && key in buckets.scan {
        buckets := buckets.Put(target, targetKey, buckets.scan[key]);
        ok := acknowledged;
      }
      failures, lastRaised := failures + (if ok then 0 else 1), !ok;
      history := history + [buckets];
    }

    /** Deleting an object that is not there succeeds. */
    method DeleteFromScan(key: string) returns (ok: bool)
      modifies this
      ensures sent == old(sent) && history == old(history) + [buckets]
      ensures buckets == old(buckets).DropFromScan(key) || (!ok && buckets == old(buckets))
      ensures failures == old(failures) + (if ok then 0 else 1) && lastRaised == !ok
      ensures failedSends == old(failedSends)
    {
      var happens: bool, acknowledged: bool := *, *;
      if happens {
        buckets := buckets.DropFromScan(key);
      }
      ok := happens && acknowledged;
      failures, lastRaised := failures + (if ok then 0 else 1), !ok;
      history := history + [buckets];
    }

    /** Sends a message. Like the other calls it may raise although it took effect: then the message is on the queue
        and only the acknowledgement was lost. */
    method Send(message: Message) returns (ok: bool)
      modifies this
      ensures buckets == old(buckets) && history == old(history) + [buckets] && failures == old(failures)
      ensures sent == old(sent) + [message] || (!ok && sent == old(sent))
      ensures failedSends == old(failedSends) + (if ok then 0 else 1) && lastRaised == !ok
    {
      var happens: bool, acknowledged: bool := *, *;
      if happens {
        sent := sent + [message];
      }
      ok := happens && acknowledged;
      failedSends, lastRaised := failedSends + (if ok then 0 else 1), !ok;
      history := history + [buckets];
    }
  }
}
