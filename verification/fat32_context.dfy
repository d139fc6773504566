/**
 The FAT32 driver's top level: the initialised and mounted flags of its
 context, and the translation of its status codes into errno values and
 messages.
 */
module Fat32Context {
  import opened CTypes
  import opened Fat32Types

  /** The numeric value of a status code. */
  function Code(e: FatError): (n: nat)
    ensures n < 15
  {
    match e
    case Ok => 0
    case InvalidParam => 1
    case NotMounted => 2
    case DiskError => 3
    case NotFound => 4
    case AlreadyExists => 5
    case NoSpace => 6
    case AccessDenied => 7
    case InvalidName => 8
    case TooManyOpenFiles => 9
    case EndOfFile => 10
    case DirectoryNotEmpty => 11
    case NotAFile => 12
    case NotADirectory => 13
    case Corrupted => 14
  }

  /** Each status code has its own value. */
  lemma CodeInjective(a: FatError, b: FatError)
    ensures Code(a) == Code(b) ==> a == b
  {
  }

  /**
   error_to_errno: success is 0, six codes have their POSIX counterparts
   (both invalid-parameter and invalid-name are EINVAL), and every other
   value, known or not, is -1.
   */
  function ErrorToErrno(code: int): (r: int)
    ensures r == 0 <==> code == Code(Ok)
    ensures r == -2 <==> code == Code(NotFound)
    ensures r == -13 <==> code == Code(AccessDenied)
    ensures r == -28 <==> code == Code(NoSpace)
    ensures r == -17 <==> code == Code(AlreadyExists)
    ensures r == -22 <==> code == Code(InvalidParam) || code == Code(InvalidName)
    ensures r == -24 <==> code == Code(TooManyOpenFiles)
    ensures r in {0, -1, -2, -13, -17, -22, -24, -28}
  {
    if code == 0 then 0
    else if code == 4 then -2
    else if code == 7 then -13
    else if code == 6 then -28
    else if code == 5 then -17
    else if code == 1 || code == 8 then -22
    else if code == 9 then -24
    else -1
  }

  /** Distinct status codes keep distinct errno values, except the two EINVAL codes and the -1 catch-all. */
  lemma ErrnoSeparates(a: FatError, b: FatError)
    requires a != b && ErrorToErrno(Code(a)) == ErrorToErrno(Code(b))
    ensures ErrorToErrno(Code(a)) == -1 || {a, b} == {InvalidParam, InvalidName}
  {
  }

  /** The message for each known code, in code order. */
  const Messages: seq<string> := [
    "Success",
    "Invalid parameter",
    "File system not mounted",
    "Disk error",
    "File or directory not found",
    "File or directory already exists",
    "No space left on device",
    "Access denied",
    "Invalid file name",
    "Too many open files",
    "End of file",
    "Directory not empty",
    "Not a file",
    "Not a directory",
    "File system corrupted"
  ]

  const UnknownMessage := "Unknown error"

  /** get_error_string: the code's message, or "Unknown error" outside the known codes. */
  function ErrorString(code: int): (s: string)
    ensures 0 <= code < 15 ==> s == Messages[code]
    ensures !(0 <= code < 15) ==> s == UnknownMessage
  {
    if 0 <= code < |Messages| then Messages[code] else UnknownMessage
  }

  /** The lengths of the known messages, in code order. */
  const Lengths: seq<nat> := [7, 17, 23, 10, 27, 32, 23, 13, 17, 19, 11, 19, 10, 15, 21]

  lemma LengthOf(i: int)
    requires 0 <= i < 15
    ensures |Messages[i]| == Lengths[i]
  {
  }

  /** Every known code has its own message and none of them reads "Unknown error". */
  lemma MessagesDistinct(a: int, b: int)
    requires 0 <= a < 15 && 0 <= b < 15 && a != b
    ensures ErrorString(a) != ErrorString(b)
    ensures ErrorString(a) != UnknownMessage
  {
    LengthOf(a);
    LengthOf(b);
    if Lengths[a] == Lengths[b] {
      if a > b {
        MessagesDistinct(b, a);
      } else if a == 1 {
        assert Messages[a][8] != Messages[b][8];
      } else {
        assert Messages[a][0] != Messages[b][0];
      }
    }
    if Lengths[a] == |UnknownMessage| {
      assert Messages[a][0] != UnknownMessage[0];
    }
  }

  /** The driver context's life-cycle flags. */
  datatype Context = Context(initialized: bool, mounted: bool)

  /** is_mounted: the driver is set up and a volume is mounted. */
  predicate IsMounted(c: Context) {
    c.initialized && c.mounted
  }

  /** The context flags are consistent: nothing is mounted before set-up. */
  predicate Consistent(c: Context) {
    c.mounted ==> c.initialized
  }

  datatype Step = Step(context: Context, status: FatError)

  /**
   fat32_init: once set up it stays as it is; otherwise the context is
   zeroed and, when the disk, cache and handle set-up (its outcome is given)
   succeeds, it is set up and unmounted.
   */
  function Init(c: Context, setup: FatError): (r: Step)
    ensures r.status == Ok ==> r.context.initialized
    ensures c.initialized ==> r == Step(c, Ok)
    ensures !c.initialized && setup == Ok ==> r == Step(Context(true, false), Ok)
    ensures !c.initialized && setup != Ok ==> r.status == setup && !IsMounted(r.context)
  {
    if c.initialized then Step(c, Ok)
    else if setup != Ok then Step(Context(false, false), setup)
    else Step(Context(true, false), Ok)
  }

  /**
   fat32_mount: before set-up it reports not-mounted; a mounted context
   stays as it is; otherwise the boot sector is read (its outcome is given)
   and a successful read mounts.
   */
  function Mount(c: Context, bootRead: FatError): (r: Step)
    ensures !c.initialized ==> r == Step(c, NotMounted)
    ensures c.initialized ==> (r.status == Ok <==> c.mounted || bootRead == Ok)
    ensures r.status == Ok ==> IsMounted(r.context)
    ensures r.status != Ok ==> r.context == c
  {
    if !c.initialized then Step(c, NotMounted)
    else if c.mounted then Step(c, Ok)
    else if bootRead != Ok then Step(c, bootRead)
    else Step(c.(mounted := true), Ok)
  }

  /** fat32_unmount: always succeeds; flush and FSInfo failures are only logged. */
  function Unmount(c: Context): (r: Step)
    ensures r.status == Ok && !IsMounted(r.context) && r.context.initialized == c.initialized
  {
    if !c.initialized || !c.mounted then Step(c, Ok)
    else Step(c.(mounted := false), Ok)
  }

  /** fat32_cleanup: unmounts and zeroes the context. */
  function Cleanup(c: Context): (r: Step)
    ensures r.status == Ok && !IsMounted(r.context) && !r.context.initialized
    ensures c.initialized ==> r.context == Context(false, false)
  {
    if !c.initialized then Step(c, Ok) else Step(Context(false, false), Ok)
  }

  /** Every life-cycle step keeps the context consistent, so mounted alone would already mean set up. */
  lemma StepsKeepConsistent(c: Context, e: FatError)
    requires Consistent(c)
    ensures Consistent(Init(c, e).context) && Consistent(Mount(c, e).context)
    ensures Consistent(Unmount(c).context) && Consistent(Cleanup(c).context)
    ensures Consistent(c) ==> (IsMounted(c) <==> c.mounted)
  {
  }

  /** Mounting then unmounting leaves a set-up context unmounted, and mounting again mounts it. */
  lemma MountUnmountMount(c: Context)
    requires c.initialized
    ensures Mount(c, Ok).status == Ok
    ensures Unmount(Mount(c, Ok).context).context == Context(true, false)
    ensures IsMounted(Mount(Unmount(Mount(c, Ok).context).context, Ok).context)
  {
  }
}
