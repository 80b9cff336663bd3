/**
 * The messages the main process sends to the page over IPC, and the observable
 * actions of the main process (a message sent, an HTTP request, a process spawned),
 * in the order they happen.
 */
module Events {

  /** The payload of `install-progress`: either `{ percent }` or `{ message }`. */
  datatype InstallData = Percent(n: nat) | Message(text: string)

  datatype Event =
    | DownloadProgress(received: nat, total: nat)   // 'download-progress'
    | DownloadComplete(path: string)                // 'download-complete'
    | DownloadError(filename: string)               // 'download-error'
    | InstallProgress(data: InstallData)            // 'install-progress'
    | InstallComplete(filename: string)             // 'install-complete'
    | InstallError(text: string)                    // 'install-error'

  datatype Action =
    | Send(event: Event)                            // event.sender.send(...)
    | Fetch(url: string)                            // https.get(url, ...)
    | Spawn(program: string, args: seq<string>)     // spawn(program, args)

  predicate IsInstallStep(a: Action) {
    a.Spawn? || (a.Send? && (a.event.InstallProgress? || a.event.InstallComplete? || a.event.InstallError?))
  }
}
