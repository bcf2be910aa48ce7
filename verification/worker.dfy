/**
 The reply the evaluation worker posts back for one request. Running the
 script and posting the reply are not modelled: the reply, or its absence,
 is an input to the page.
 */
module Worker {
  import opened Wrappers
  import opened Manifests

  /** The message protocol: `{ok: true, manifest}` or `{ok: false, error}`.
      `error` is `None` when it is `undefined`: the worker reads the
      `message` property of whatever was thrown, and a thrown value that is
      not an `Error` (a string, say) has none. */
  datatype WorkerReply = WorkerOk(manifest: Manifest) | WorkerErr(error: Option<string>)

  /** The evaluation worker, as the reply it posts for each request text.
      `None` is a request that is never answered: the worker's own error
      handler throws when the script threw `null` or `undefined`. */
  type Replies = string -> Option<WorkerReply>
}
