/** Values shared by every component: optional values, the outcome of a call that may
    throw, the exceptions the cleaners distinguish, and the cooperative cancellation token. */
module Common {

  datatype Option<T> = None | Some(value: T)

  /** The exceptions the modelled code raises or catches. Paths are carried for the messages. */
  datatype Exn =
    | OperationCanceled
    | UnauthorizedAccess(path: string)
    | FileNotFound(path: string)
    | SharingViolation(path: string)
    | DirectoryNotFound(path: string)
    | ArgumentNull(paramName: string)
    | InvalidOperation(message: string)
    | ArgumentOutOfRange(paramName: string)
    | NullReference
    | Overflow
    | CleaningError(message: string, inner: Exn)

  /** `catch (IOException)` catches exactly these. */
  predicate IsIOException(e: Exn) {
    e.FileNotFound? || e.SharingViolation? || e.DirectoryNotFound?
  }

  /** The `Message` property of each exception. */
  function Message(e: Exn): string {
    match e
    case OperationCanceled => "The operation was canceled."
    case UnauthorizedAccess(p) => "Access to the path '" + p + "' is denied."
    case FileNotFound(p) => "Could not find file '" + p + "'."
    case SharingViolation(p) => "The process cannot access the file '" + p + "' because it is being used by another process."
    case DirectoryNotFound(p) => "Could not find a part of the path '" + p + "'."
    case ArgumentNull(n) => "Value cannot be null. (Parameter '" + n + "')"
    case InvalidOperation(m) => m
    case ArgumentOutOfRange(n) => "Specified argument was out of the range of valid values. (Parameter '" + n + "')"
    case NullReference => "Object reference not set to an instance of an object."
    case Overflow => "TimeSpan overflowed because the duration is too long."
    case CleaningError(m, _) => m
  }

  /** A call that either returns a value or throws. */
  datatype Outcome<T> = Done(value: T) | Threw(error: Exn)

  /** A cancellation token. Its owner requests cancellation after `cancelAfter` polls have
      been answered (never, for `None`); from then on every poll reports cancellation.
      The number of polls answered so far is threaded through the calls that poll it. */
  datatype CancellationToken = CancellationToken(cancelAfter: Option<nat>)

  /** `CancellationToken.None`: cancellation is never requested. */
  const NoCancellation := CancellationToken(None)

  /** `IsCancellationRequested` after `polls` polls. */
  predicate CancellationRequested(token: CancellationToken, polls: nat) {
    token.cancelAfter.Some? && token.cancelAfter.value <= polls
  }

  /** Once requested, cancellation stays requested. */
  lemma RequestIsSticky(token: CancellationToken, polls: nat, later: nat)
    requires CancellationRequested(token, polls) && polls <= later
    ensures CancellationRequested(token, later)
  {
  }

  lemma ConcatAssoc<T>(a: seq<T>, b: seq<T>, c: seq<T>)
    ensures (a + b) + c == a + (b + c)
  {
  }

  /** A non-empty sequence is its front followed by its last element. */
  lemma SnocParts<T>(s: seq<T>)
    requires s != []
    ensures s == s[..|s| - 1] + [s[|s| - 1]]
  {
  }

  /** The front and the last element of `a + b` for a non-empty `b`. */
  lemma AppendFront<T>(a: seq<T>, b: seq<T>)
    requires b != []
    ensures (a + b)[..|a + b| - 1] == a + b[..|b| - 1]
    ensures (a + b)[|a + b| - 1] == b[|b| - 1]
    ensures a + b == (a + b[..|b| - 1]) + [b[|b| - 1]]
  {
    assert (a + b)[..|a + b| - 1] == a + b[..|b| - 1];
  }

  /** The prefix as long as the sequence is the sequence. */
  lemma PrefixAll<T>(s: seq<T>, i: nat)
    requires i == |s|
    ensures s[..i] == s
  {
  }

  /** Appending the empty sequence on either side changes nothing. */
  lemma AppendEmpty<T>(a: seq<T>)
    ensures a + [] == a && [] + a == a && a[..0] == []
  {
  }

  lemma PrefixOfAppend<T>(a: seq<T>, b: seq<T>)
    ensures a <= a + b
  {
    assert (a + b)[..|a|] == a;
  }

  lemma SlicePrefix<T>(s: seq<T>, i: nat)
    requires i <= |s|
    ensures s[..i] <= s
  {
  }

  /** Extending both sides of a prefix relation by the same front keeps it. */
  lemma PrefixAppendMono<T>(p: seq<T>, x: seq<T>, y: seq<T>)
    requires x <= y
    ensures p + x <= p + y
  {
    assert (p + y)[..|p + x|] == p + x;
  }

  lemma PrefixTrans<T>(a: seq<T>, b: seq<T>, c: seq<T>)
    requires a <= b && b <= c
    ensures a <= c
  {
  }

  /** The sequences of `xss` joined in order. */
  function Flatten<T>(xss: seq<seq<T>>): seq<T> {
    if xss == [] then [] else Flatten(xss[..|xss| - 1]) + xss[|xss| - 1]
  }

  lemma FlattenSnoc<T>(xss: seq<seq<T>>, xs: seq<T>)
    ensures Flatten(xss + [xs]) == Flatten(xss) + xs
  {
    assert (xss + [xs])[..|xss|] == xss;
  }

  /** The prefix of length `i + 1` extends the prefix of length `i` by `s[i]`. */
  lemma PrefixStep<T>(s: seq<T>, i: nat)
    requires i < |s|
    ensures s[..i + 1][..i] == s[..i] && s[..i + 1][i] == s[i]
    ensures s[..i + 1] == s[..i] + [s[i]]
  {
  }
}
