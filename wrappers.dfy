/** An optional value, used where the widget's Python helpers return `None`. */
module Wrappers {

  datatype Option<+T> = None | Some(value: T)
}

/** The outcome of one `subprocess.run` call as the widget observes it. */
module Subprocess {

  /** `Exited` is a completed process with its exit status and captured
      standard output; `Raised` is a call that ended in one of the exceptions
      the widget catches around it (`subprocess.SubprocessError`, which
      includes a timeout, and `FileNotFoundError` for a missing program). */
  datatype Run = Exited(code: int, stdout: string) | Raised {

    /** The widget's `result.returncode == 0` test. */
    predicate Succeeded() {
      Exited? && code == 0
    }
  }
}
