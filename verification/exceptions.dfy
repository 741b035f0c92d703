/** The Java exceptions the plugin throws, catches or wraps, reduced to what its
    error handling looks at: the class, the message and the cause. */
module Exceptions {
  import opened Wrappers

  datatype Kind =
    | Vcs                  // jetbrains.buildServer.vcs.VcsException
    | VcsFileNotFound      // VcsFileNotFoundException, a subclass of VcsException
    | CorruptObject        // org.eclipse.jgit.errors.CorruptObjectException (an IOException)
    | Transport            // org.eclipse.jgit.errors.TransportException (an IOException)
    | IO                   // java.io.IOException
    | FileNotFound         // java.io.FileNotFoundException
    | UnknownHost          // java.net.UnknownHostException
    | IllegalState         // java.lang.IllegalStateException
    | IllegalArgument      // java.lang.IllegalArgumentException
    | IndexOutOfBounds     // java.lang.ArrayIndexOutOfBoundsException
    | OtherRuntime(className: string)
    | OtherChecked(className: string)

  datatype Exception = Exception(kind: Kind, message: Option<string>, cause: Option<Exception>)

  function ClassName(k: Kind): string {
    match k
    case Vcs => "jetbrains.buildServer.vcs.VcsException"
    case VcsFileNotFound => "jetbrains.buildServer.vcs.VcsFileNotFoundException"
    case CorruptObject => "org.eclipse.jgit.errors.CorruptObjectException"
    case Transport => "org.eclipse.jgit.errors.TransportException"
    case IO => "java.io.IOException"
    case FileNotFound => "java.io.FileNotFoundException"
    case UnknownHost => "java.net.UnknownHostException"
    case IllegalState => "java.lang.IllegalStateException"
    case IllegalArgument => "java.lang.IllegalArgumentException"
    case IndexOutOfBounds => "java.lang.ArrayIndexOutOfBoundsException"
    case OtherRuntime(n) => n
    case OtherChecked(n) => n
  }

  /** `e instanceof VcsException`. */
  predicate IsVcs(e: Exception) {
    e.kind == Vcs || e.kind == VcsFileNotFound
  }

  /** `e instanceof RuntimeException`. */
  predicate IsRuntime(e: Exception) {
    e.kind.IllegalState? || e.kind.IllegalArgument? || e.kind.IndexOutOfBounds? || e.kind.OtherRuntime?
  }

  /** `Throwable.toString()`: the class name, then `": "` and the message when there is one. */
  function ToString(e: Exception): string {
    ClassName(e.kind) + (if e.message.Some? then ": " + e.message.value else "")
  }

  /** `getMessage()` as string concatenation prints it (a null message prints as "null"). */
  function MessageText(e: Exception): string {
    e.message.GetOr("null")
  }

  function VcsError(message: string): Exception {
    Exception(Vcs, Some(message), None)
  }
}
