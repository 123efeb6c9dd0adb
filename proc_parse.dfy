/** The small byte parsers behind name resolution and the state queries:
    read_line, the name-matching rule of comm_to_tid, and the state-letter
    test of pthread_is_ready and pthread_is_suspend. A file descriptor is
    modelled as the bytes it would yield. */
module ProcParse {
  import opened Wrappers
  import opened Errno

  newtype byte = b: int | 0 <= b < 256

  const NUL: byte := 0
  const NEWLINE: byte := 10
  const SPACE: byte := 32
  const CLOSE_PAREN: byte := 41
  /** The state letters of a `stat` line: running and sleeping. */
  const STATE_RUNNING: byte := 82
  const STATE_SLEEPING: byte := 83

  /** Size of the `comm` and `stat` buffers the callers use. */
  const BUF_SIZE: nat := 64

  function Min(a: nat, b: nat): nat {
    if a <= b then a else b
  }

  /** Byte `i` of a C string held in `s`: past the end it reads as NUL. */
  function At(s: seq<byte>, i: nat): byte {
    if i < |s| then s[i] else NUL
  }

  /** The string after its first byte. */
  function Drop(s: seq<byte>): seq<byte> {
    if s == [] then s else s[1..]
  }

  predicate NulFree(s: seq<byte>) {
    forall i :: 0 <= i < |s| ==> s[i] != NUL
  }

  predicate IsLineEnd(b: byte) {
    b == NEWLINE || b == NUL
  }

  /** Position of the first newline or NUL, or the length if there is none. */
  function LineEnd(s: seq<byte>): (n: nat)
    ensures n <= |s|
    ensures forall j :: 0 <= j < n ==> !IsLineEnd(s[j])
    ensures n < |s| ==> IsLineEnd(s[n])
  {
    if s == [] || IsLineEnd(s[0]) then 0
    else
      assert forall j :: 1 <= j < |s| ==> s[j] == s[1..][j - 1];
      1 + LineEnd(s[1..])
  }

  /** strlen: position of the first NUL, or the length if there is none. */
  function StrLen(s: seq<byte>): (n: nat)
    ensures n <= |s|
    ensures forall j :: 0 <= j < n ==> s[j] != NUL
    ensures n < |s| ==> s[n] == NUL
  {
    if s == [] || s[0] == NUL then 0
    else
      assert forall j :: 1 <= j < |s| ==> s[j] == s[1..][j - 1];
      1 + StrLen(s[1..])
  }

  /** The line read_line leaves in a buffer of `size` bytes: the input up to
      its first newline, NUL or end, cut to `size - 1` bytes. */
  function Line(input: seq<byte>, size: nat): seq<byte>
    requires size >= 1
  {
    input[..Min(LineEnd(input), size - 1)]
  }

  /** `l` followed by NULs up to `size` bytes. */
  function Padded(l: seq<byte>, size: nat): (b: seq<byte>)
    requires |l| <= size
    ensures |b| == size
  {
    l + seq(size - |l|, _ => NUL)
  }

  /** read_line(fd, buf, size) with size == buf.Length: clears the buffer,
      copies bytes until a newline, a NUL, the end of input or the end of
      the buffer, and always ends the buffer with a NUL. */
  method ReadLine(input: seq<byte>, buf: array<byte>) returns (ret: int)
    requires buf.Length >= 1
    modifies buf
    ensures ret == 0
    ensures buf[..] == Padded(Line(input, buf.Length), buf.Length)
  {
    var size := buf.Length;
    forall j | 0 <= j < size {
      buf[j] := NUL;
    }
    var i := 0;
    while i < size
      invariant 0 <= i <= size
      invariant i <= LineEnd(input)
      invariant forall j :: 0 <= j < i ==> buf[j] == input[j]
      invariant forall j :: i <= j < size ==> buf[j] == NUL
    {
      if i >= |input| || IsLineEnd(input[i]) {
        buf[i] := NUL;
        break;
      }
      buf[i] := input[i];
      i := i + 1;
    }
    if i == size {
      buf[i - 1] := NUL;
    }
    assert buf[..] == Padded(Line(input, size), size);
    ret := 0;
  }

  /** What read_line keeps is a prefix of the input holding no newline and
      no NUL, at most `size - 1` bytes long; when the line fits, it is the
      whole line. */
  lemma LineIsBoundedPrefix(input: seq<byte>, size: nat)
    requires size >= 1
    ensures var l := Line(input, size);
      && |l| <= size - 1
      && l == input[..|l|]
      && (forall j :: 0 <= j < |l| ==> !IsLineEnd(l[j]))
      && (LineEnd(input) < size ==> l == input[..LineEnd(input)])
  {
  }

  /** A line of fewer than `size` bytes comes back whole, whether it ends at
      a newline or at the end of input. */
  lemma {:induction false} LineRoundTrip(l: seq<byte>, rest: seq<byte>, size: nat)
    requires forall j :: 0 <= j < |l| ==> !IsLineEnd(l[j])
    requires |l| < size
    ensures Line(l + [NEWLINE] + rest, size) == l
    ensures Line(l, size) == l
  {
    var input := l + [NEWLINE] + rest;
    assert input[|l|] == NEWLINE;
    assert forall j :: 0 <= j < |l| ==> input[j] == l[j];
    assert LineEnd(input) == |l|;
    assert input[..|l|] == l;
  }

  /** The buffer read_line fills is NUL-terminated inside its size, and
      strlen of it is the length of the line. */
  lemma ReadLineBufferTerminated(input: seq<byte>, size: nat)
    requires size >= 1
    ensures var l := Line(input, size);
      && Padded(l, size)[|l|] == NUL
      && NulFree(l)
      && StrLen(Padded(l, size)) == |l|
  {
  }

  /** strncmp(a, b, n) == 0 on C strings held in sequences. */
  predicate StrNEq(a: seq<byte>, b: seq<byte>, n: nat)
    decreases n
  {
    n == 0 || (At(a, 0) == At(b, 0) && (At(a, 0) == NUL || StrNEq(Drop(a), Drop(b), n - 1)))
  }

  /** strncmp only looks at the first n bytes of its second argument. */
  lemma {:induction false} StrNEqFirstBytes(a: seq<byte>, b: seq<byte>, c: seq<byte>, n: nat)
    requires forall j :: 0 <= j < n ==> At(b, j) == At(c, j)
    ensures StrNEq(a, b, n) == StrNEq(a, c, n)
    decreases n
  {
    if n > 0 {
      assert At(b, 0) == At(c, 0);
      forall j | 0 <= j < n - 1 ensures At(Drop(b), j) == At(Drop(c), j) {
        assert At(b, j + 1) == At(c, j + 1);
      }
      StrNEqFirstBytes(Drop(a), Drop(b), Drop(c), n - 1);
    }
  }

  /** On NUL-free strings, strncmp(name, comm, strlen(comm)) == 0 holds
      exactly when comm is a prefix of name; so an empty comm matches every
      name. */
  lemma {:induction false} StrNEqIsPrefix(name: seq<byte>, comm: seq<byte>)
    requires NulFree(name) && NulFree(comm)
    ensures StrNEq(name, comm, |comm|) <==> (|comm| <= |name| && name[..|comm|] == comm)
    decreases |comm|
  {
    if comm != [] {
      if name == [] {
        assert At(name, 0) == NUL != At(comm, 0);
      } else {
        StrNEqIsPrefix(name[1..], comm[1..]);
        if |comm| <= |name| && name[..|comm|] == comm {
          assert name[1..][..|comm| - 1] == comm[1..];
        }
        if |comm| - 1 <= |name| - 1 && name[1..][..|comm| - 1] == comm[1..] && name[0] == comm[0] {
          assert name[..|comm|] == [name[0]] + name[1..][..|comm| - 1];
        }
      }
    }
  }

  /** One entry of `/proc/<pid>/task`: the task id and what its `comm` file
      holds, or None when that file cannot be opened. */
  datatype TaskEntry = TaskEntry(id: nat, commFile: Option<seq<byte>>)

  /** The name read_line takes from a task's comm file. */
  function CommOf(file: seq<byte>): seq<byte> {
    Line(file, BUF_SIZE)
  }

  /** comm_to_tid's test: the entry is readable and
      strncmp(name, comm, strlen(comm)) == 0. */
  predicate Matches(name: seq<byte>, e: TaskEntry) {
    e.commFile.Some? && StrNEq(name, CommOf(e.commFile.value), |CommOf(e.commFile.value)|)
  }

  /** The first entry at or after `i` that matches `name`. */
  function FirstMatch(name: seq<byte>, ts: seq<TaskEntry>, i: nat): (r: Option<nat>)
    requires i <= |ts|
    decreases |ts| - i
    ensures r.Some? ==> i <= r.value < |ts| && Matches(name, ts[r.value])
    ensures r.Some? ==> forall j :: i <= j < r.value ==> !Matches(name, ts[j])
    ensures r.None? <==> forall j :: i <= j < |ts| ==> !Matches(name, ts[j])
  {
    if i == |ts| then None
    else if Matches(name, ts[i]) then Some(i)
    else FirstMatch(name, ts, i + 1)
  }

  predicate AnyReadable(ts: seq<TaskEntry>) {
    exists j :: 0 <= j < |ts| && ts[j].commFile.Some?
  }

  /** What comm_to_tid returns as written: the id of the first matching
      entry; with none, 0 once any comm file was read (read_line's return
      value is left in `ret`), and -1 otherwise. */
  function ResolvedTid(name: seq<byte>, ts: seq<TaskEntry>): int {
    match FirstMatch(name, ts, 0)
    case Some(k) => ts[k].id
    case None => if AnyReadable(ts) then 0 else -1
  }

  /** What comm_to_tid is meant to return: the id of the first matching
      entry, or -1 when no entry matches. */
  function IntendedTid(name: seq<byte>, ts: seq<TaskEntry>): int {
    match FirstMatch(name, ts, 0)
    case Some(k) => ts[k].id
    case None => -1
  }

  /** comm_to_tid(name). `name` is None for NULL, `tasks` is None when the
      task directory cannot be opened. */
  method CommToTid(name: Option<seq<byte>>, tasks: Option<seq<TaskEntry>>) returns (ret: int)
    ensures ret == if name.None? || tasks.None? then -1 else ResolvedTid(name.value, tasks.value)
  {
    ret := -1;
    if name.None? || tasks.None? {
      return -1;
    }
    var ts := tasks.value;
    var k := 0;
    while k < |ts|
      invariant 0 <= k <= |ts|
      invariant forall j :: 0 <= j < k ==> !Matches(name.value, ts[j])
      invariant ret == if exists j :: 0 <= j < k && ts[j].commFile.Some? then 0 else -1
    {
      var e := ts[k];
      if e.commFile.None? {
        k := k + 1;
        continue;
      }
      var comm := new byte[BUF_SIZE];
      ret := ReadLine(e.commFile.value, comm);
      if ret == -1 {
        k := k + 1;
        continue;
      }
      ReadLineBufferTerminated(e.commFile.value, BUF_SIZE);
      var n := StrLen(comm[..]);
      StrNEqFirstBytes(name.value, comm[..], CommOf(e.commFile.value), n);
      if StrNEq(name.value, comm[..], n) {
        assert FirstMatch(name.value, ts, 0) == Some(k);
        return e.id;
      }
      k := k + 1;
    }
    assert FirstMatch(name.value, ts, 0).None?;
  }

  /** The entry comm_to_tid picks is the first readable one whose comm is a
      prefix of the name. */
  lemma MatchIsCommPrefix(name: seq<byte>, e: TaskEntry)
    requires NulFree(name) && e.commFile.Some?
    ensures var comm := CommOf(e.commFile.value);
      Matches(name, e) <==> (|comm| <= |name| && name[..|comm|] == comm)
  {
    ReadLineBufferTerminated(e.commFile.value, BUF_SIZE);
    StrNEqIsPrefix(name, CommOf(e.commFile.value));
  }

  /** As written, a name that matches no readable entry gives 0, not -1,
      as soon as one comm file was read. */
  lemma UnmatchedNameGivesZero(name: seq<byte>, ts: seq<TaskEntry>)
    requires forall j :: 0 <= j < |ts| ==> !Matches(name, ts[j])
    requires AnyReadable(ts)
    ensures ResolvedTid(name, ts) == 0
  {
  }

  /** One task named "abc" and the name "xyz": comm_to_tid returns 0. */
  lemma UnmatchedNameExample()
    ensures ResolvedTid([120, 121, 122], [TaskEntry(7, Some([97, 98, 99]))]) == 0
  {
  }

  /** The intended result is -1 exactly when no readable entry's comm is a
      prefix of the name, and otherwise the id of the first one that is. */
  lemma {:induction false} IntendedTidFailsIffNoMatch(name: seq<byte>, ts: seq<TaskEntry>)
    requires NulFree(name)
    ensures IntendedTid(name, ts) == -1 <==>
      forall j :: 0 <= j < |ts| && ts[j].commFile.Some? ==>
        !(|CommOf(ts[j].commFile.value)| <= |name| && name[..|CommOf(ts[j].commFile.value)|] == CommOf(ts[j].commFile.value))
    ensures IntendedTid(name, ts) != -1 ==>
      var k := FirstMatch(name, ts, 0).value;
      IntendedTid(name, ts) == ts[k].id && ts[k].commFile.Some?
  {
    forall j | 0 <= j < |ts| && ts[j].commFile.Some? {
      MatchIsCommPrefix(name, ts[j]);
    }
  }

  /** The `stat` buffer: the first bytes of the file, at most BUF_SIZE,
      after a zero-filled BUF_SIZE-byte buffer. */
  function StatBuffer(file: seq<byte>): (b: seq<byte>)
    ensures |b| == BUF_SIZE
  {
    Padded(file[..Min(|file|, BUF_SIZE)], BUF_SIZE)
  }

  /** Position of the first ')' at or after `i` before the string ends. */
  function ParenIndex(s: seq<byte>, i: nat): (r: Option<nat>)
    requires i <= StrLen(s)
    decreases StrLen(s) - i
    ensures r.Some? ==> i <= r.value < StrLen(s) && s[r.value] == CLOSE_PAREN
    ensures r.Some? ==> forall j :: i <= j < r.value ==> s[j] != CLOSE_PAREN
    ensures r.None? <==> forall j :: i <= j < StrLen(s) ==> s[j] != CLOSE_PAREN
  {
    if i == StrLen(s) then None
    else if s[i] == CLOSE_PAREN then Some(i)
    else ParenIndex(s, i + 1)
  }

  /** The byte two places after the first ')', or None when the string has
      no ')'. */
  function StateLetter(stat: seq<byte>): Option<byte> {
    match ParenIndex(stat, 0)
    case Some(p) => Some(At(stat, p + 2))
    case None => None
  }

  /** The scan of pthread_is_ready and pthread_is_suspend: walk to the first
      ')', step over the space, compare the next byte with `letter`. */
  method StateIs(stat: seq<byte>, letter: byte) returns (r: bool)
    ensures r <==> StateLetter(stat) == Some(letter)
  {
    var c := 0;
    while c < |stat| && stat[c] != NUL
      invariant 0 <= c <= StrLen(stat)
      invariant forall j :: 0 <= j < c ==> stat[j] != CLOSE_PAREN
    {
      if stat[c] != CLOSE_PAREN {
        c := c + 1;
        continue;
      }
      assert ParenIndex(stat, 0) == Some(c);
      c := c + 1; // to the space
      c := c + 1; // to the state letter
      return At(stat, c) == letter;
    }
    assert ParenIndex(stat, 0).None?;
    return false;
  }

  /** What opening and reading `/proc/<pid>/task/<tid>/stat` gives: `open`
      fails and sets errno, `read` fails and sets errno while the buffer keeps
      its zero fill, or `read` yields the file's bytes. */
  datatype StatRead =
    | OpenFailed(openErrno: int)
    | ReadFailed(readErrno: int)
    | ReadOk(file: seq<byte>)

  /** pthread_is_ready. `handleValid` is the negation of INVALID_TD_P and
      `errno` is the caller's errno before the call. */
  method IsReady(handleValid: bool, stat: StatRead, errno: int) returns (ready: bool, errnoAfter: int)
    ensures !handleValid ==> !ready && errnoAfter == ESRCH
    ensures handleValid && stat.OpenFailed? ==> !ready && errnoAfter == stat.openErrno
    ensures handleValid && stat.ReadFailed? ==> !ready && errnoAfter == stat.readErrno
    ensures handleValid && stat.ReadOk? ==>
      && errnoAfter == errno
      && (ready <==> StateLetter(StatBuffer(stat.file)) == Some(STATE_RUNNING))
  {
    if !handleValid {
      return false, ESRCH;
    }
    match stat
    case OpenFailed(e) =>
      return false, e;
    case ReadFailed(e) =>
      ZeroBufferIsNeither();
      ready := StateIs(StatBuffer([]), STATE_RUNNING);
      errnoAfter := e;
    case ReadOk(file) =>
      ready := StateIs(StatBuffer(file), STATE_RUNNING);
      errnoAfter := errno;
  }

  /** pthread_is_suspend, the same scan for the sleeping letter. */
  method IsSuspend(handleValid: bool, stat: StatRead, errno: int) returns (suspended: bool, errnoAfter: int)
    ensures !handleValid ==> !suspended && errnoAfter == ESRCH
    ensures handleValid && stat.OpenFailed? ==> !suspended && errnoAfter == stat.openErrno
    ensures handleValid && stat.ReadFailed? ==> !suspended && errnoAfter == stat.readErrno
    ensures handleValid && stat.ReadOk? ==>
      && errnoAfter == errno
      && (suspended <==> StateLetter(StatBuffer(stat.file)) == Some(STATE_SLEEPING))
  {
    if !handleValid {
      return false, ESRCH;
    }
    match stat
    case OpenFailed(e) =>
      return false, e;
    case ReadFailed(e) =>
      ZeroBufferIsNeither();
      suspended := StateIs(StatBuffer([]), STATE_SLEEPING);
      errnoAfter := e;
    case ReadOk(file) =>
      suspended := StateIs(StatBuffer(file), STATE_SLEEPING);
      errnoAfter := errno;
  }

  /** After a failed `read` the zero-filled buffer is the empty string, so it
      has no state letter. */
  lemma ZeroBufferIsNeither()
    ensures StateLetter(StatBuffer([])) == None
  {
  }

  /** A stat line `<pid> (<comm>) <state> ...` whose comm holds no ')' and
      whose state letter falls inside the buffer reads back as that letter,
      so a thread is never both ready and suspended. */
  lemma {:induction false} StatLineGivesState(head: seq<byte>, state: byte, rest: seq<byte>)
    requires NulFree(head)
    requires forall j :: 0 <= j < |head| ==> head[j] != CLOSE_PAREN
    requires |head| + 3 <= BUF_SIZE
    requires state != NUL
    ensures StateLetter(StatBuffer(head + [CLOSE_PAREN, SPACE, state] + rest)) == Some(state)
    ensures !(StateLetter(StatBuffer(head + [CLOSE_PAREN, SPACE, state] + rest)) == Some(STATE_RUNNING)
              && StateLetter(StatBuffer(head + [CLOSE_PAREN, SPACE, state] + rest)) == Some(STATE_SLEEPING))
  {
    var file := head + [CLOSE_PAREN, SPACE, state] + rest;
    var b := StatBuffer(file);
    var p := |head|;
    assert forall j :: 0 <= j < p + 3 ==> b[j] == file[j];
    assert b[p] == CLOSE_PAREN && b[p + 1] == SPACE && b[p + 2] == state;
    assert StrLen(b) > p + 2;
    assert ParenIndex(b, 0) == Some(p);
  }

  /** A stat buffer with no ')' before its first NUL is neither ready nor
      suspended. */
  lemma NoParenIsNeither(stat: seq<byte>)
    requires forall j :: 0 <= j < StrLen(stat) ==> stat[j] != CLOSE_PAREN
    ensures StateLetter(stat) == None
  {
  }
}
