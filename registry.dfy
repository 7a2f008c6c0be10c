/**
 * `GENERATED_ZIPS`: the in-memory table of produced archives, keyed by the
 * identifier handed out on the result page, and the download route that
 * serves them.
 *
 * Each entry is an in-memory buffer. `send_file` hands the buffer to the
 * server's file wrapper, which closes it once the answer has been sent; the
 * entry stays in the table, and the next download of the same identifier
 * fails at `seek(0)` on the closed buffer, which the server answers with
 * status 500.
 */
module Registry {
  import opened Batch

  /** The name the archive is downloaded under, and its media type. */
  const DownloadName: string := "NDA_Forms.zip"
  const ZipType: string := "application/zip"
  const ExpiredMessage: string := "Invalid or expired download link."
  const ServerErrorStatus: nat := 500

  /** A stored buffer: the archive it holds, and whether serving it has closed it. */
  datatype Buffer = Buffer(archive: Archive, closed: bool)

  /** What the download route answers: the archive as an attachment, a 404 with a message, or the server's error answer. */
  datatype Response =
    | Attachment(archive: Archive, downloadName: string, mimetype: string)
    | NotFound(status: nat, body: string)
    | ServerError(status: nat)

  /** The answer for `id` given the stored buffers. */
  function Lookup(archives: map<string, Buffer>, id: string): (r: Response)
    ensures r.NotFound? <==> id !in archives
    ensures r.Attachment? <==> id in archives && !archives[id].closed
    ensures r.Attachment? ==> r == Attachment(archives[id].archive, DownloadName, ZipType)
    ensures r.NotFound? ==> r == NotFound(404, ExpiredMessage)
    ensures r.ServerError? ==> r == ServerError(ServerErrorStatus)
  {
    if id !in archives then NotFound(404, ExpiredMessage)
    else if archives[id].closed then ServerError(ServerErrorStatus)
    else Attachment(archives[id].archive, DownloadName, ZipType)
  }

  /** The table after a download of `id`: its buffer, if any, is closed; nothing else changes. */
  function Served(archives: map<string, Buffer>, id: string): (r: map<string, Buffer>)
    ensures r.Keys == archives.Keys
    ensures id in archives ==> r[id] == Buffer(archives[id].archive, true)
    ensures forall other :: other in archives && other != id ==> r[other] == archives[other]
  {
    if id in archives then archives[id := Buffer(archives[id].archive, true)] else archives
  }

  /** Right after an archive is stored under `id`, downloading `id` serves that archive. */
  lemma LookupAfterStore(archives: map<string, Buffer>, id: string, zip: Archive)
    ensures Lookup(archives[id := Buffer(zip, false)], id) == Attachment(zip, DownloadName, ZipType)
  {
  }

  /** Storing under one identifier leaves the answer for every other identifier as it was. */
  lemma LookupOthersUnchanged(archives: map<string, Buffer>, id: string, zip: Archive, other: string)
    requires other != id
    ensures Lookup(archives[id := Buffer(zip, false)], other) == Lookup(archives, other)
  {
  }

  /** Downloading one identifier leaves the answer for every other identifier as it was. */
  lemma ServedOthersUnchanged(archives: map<string, Buffer>, id: string, other: string)
    requires other != id
    ensures Lookup(Served(archives, id), other) == Lookup(archives, other)
  {
  }

  /**
   * A stored archive is served once: the first download after storing it
   * gets the archive, and every later download of the same identifier gets
   * the error answer, until an archive is stored under it again.
   */
  lemma {:induction false} DownloadOnce(archives: map<string, Buffer>, id: string, zip: Archive, later: nat)
    ensures var first := archives[id := Buffer(zip, false)];
      && Lookup(first, id) == Attachment(zip, DownloadName, ZipType)
      && Lookup(ServedTimes(Served(first, id), id, later), id) == ServerError(ServerErrorStatus)
  {
    var first := archives[id := Buffer(zip, false)];
    ServedStaysClosed(Served(first, id), id, later);
  }

  /** The table after `n` downloads of `id`. */
  function ServedTimes(archives: map<string, Buffer>, id: string, n: nat): map<string, Buffer>
    decreases n
  {
    if n == 0 then archives else Served(ServedTimes(archives, id, n - 1), id)
  }

  /** Once the buffer under `id` is closed, further downloads keep it in the table and closed. */
  lemma {:induction false} ServedStaysClosed(archives: map<string, Buffer>, id: string, n: nat)
    requires id in archives && archives[id].closed
    ensures id in ServedTimes(archives, id, n) && ServedTimes(archives, id, n)[id].closed
    decreases n
  {
    if n > 0 {
      ServedStaysClosed(archives, id, n - 1);
    }
  }

  class DownloadRegistry {
    /** The stored buffers, keyed by identifier. */
    var archives: map<string, Buffer>

    /** The table starts empty when the application starts. */
    constructor()
      ensures archives == map[]
    {
      archives := map[];
    }

    /** `GENERATED_ZIPS[zip_id] = zip_buffer`: stores a fresh buffer, replacing one already under that identifier. */
    method Store(id: string, zip: Archive)
      modifies this
      ensures archives == old(archives)[id := Buffer(zip, false)]
    {
      archives := archives[id := Buffer(zip, false)];
    }

    /**
     * `download_zip`: an unknown identifier gets the 404 answer; a stored,
     * unserved one gets its archive, and serving closes its buffer; a closed
     * one gets the error answer. The entry is never removed.
     */
    method Download(id: string) returns (r: Response)
      modifies this
      ensures r == Lookup(old(archives), id)
      ensures archives == Served(old(archives), id)
    {
      if id !in archives {
        return NotFound(404, ExpiredMessage);
      }
      var buffer := archives[id];
      if buffer.closed {
        return ServerError(ServerErrorStatus);
      }
      r := Attachment(buffer.archive, DownloadName, ZipType);
      archives := archives[id := Buffer(buffer.archive, true)];
    }
  }
}
