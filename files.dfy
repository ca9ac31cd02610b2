/**
 * The scoped openers `Reader` and `Readers`.
 *
 * The operating system is a `Process`: an open oracle that says which names
 * fail to open and with what error, a descriptor counter that makes every
 * opened file distinct, and a trace of the events the helpers cause (a file
 * opened, the callback entered with its readers, a file closed). Deferred
 * closes run when the helper returns, last deferred first, as Go's `defer` does.
 */
module Files {
  import opened Wrappers

  /** An open file: its descriptor and the name it was opened under. */
  datatype File = File(fd: nat, name: string)

  /** What the helpers do, in the order they do it. */
  datatype Event = Opened(file: File) | Called(readers: seq<File>) | Closed(file: File)

  class Process {
    /** The error `os.Open` fails with for each name; None when the name opens. */
    const openError: string -> Option<Error>
    /** The descriptor the next successful open returns. */
    var nextFd: nat
    /** Every event so far, oldest first. */
    var trace: seq<Event>

    constructor (openError: string -> Option<Error>, firstFd: nat)
      ensures this.openError == openError && nextFd == firstFd && trace == []
    {
      this.openError := openError;
      nextFd := firstFd;
      trace := [];
    }

    /** os.Open: fails with the oracle's error, or opens a new file under a fresh descriptor. */
    method Open(name: string) returns (r: Result<File, Error>)
      modifies this
      ensures openError(name).Some? ==>
                r == Failure(openError(name).value) && nextFd == old(nextFd) && trace == old(trace)
      ensures openError(name).None? ==>
                r == Success(File(old(nextFd), name)) && nextFd == old(nextFd) + 1
                && trace == old(trace) + [Opened(r.value)]
    {
      if openError(name).Some? {
        r := Failure(openError(name).value);
      } else {
        r := Success(File(nextFd, name));
        nextFd := nextFd + 1;
        trace := trace + [Opened(r.value)];
      }
    }

    /** f.Close() */
    method Close(f: File)
      modifies this`trace
      ensures trace == old(trace) + [Closed(f)]
    {
      trace := trace + [Closed(f)];
    }

    /** Records that the caller's callback is entered with `readers`. */
    method Enter(readers: seq<File>)
      modifies this`trace
      ensures trace == old(trace) + [Called(readers)]
    {
      trace := trace + [Called(readers)];
    }
  }

  /** The files a run of successful opens yields: descriptors from `fd0` on, in name order. */
  function Descriptors(fd0: nat, names: seq<string>): (files: seq<File>)
    ensures |files| == |names|
    ensures forall j :: 0 <= j < |names| ==> files[j] == File(fd0 + j, names[j])
    decreases names
  {
    if names == [] then [] else [File(fd0, names[0])] + Descriptors(fd0 + 1, names[1..])
  }

  /** The open events for `files`, in order. */
  function Opens(files: seq<File>): (events: seq<Event>)
    ensures |events| == |files|
    ensures forall j :: 0 <= j < |files| ==> events[j] == Opened(files[j])
  {
    if files == [] then [] else [Opened(files[0])] + Opens(files[1..])
  }

  /** The close events that deferring a close of each of `files` produces: last deferred first. */
  function Closes(files: seq<File>): (events: seq<Event>)
    ensures |events| == |files|
    ensures forall j :: 0 <= j < |files| ==> events[j] == Closed(files[|files| - 1 - j])
  {
    if files == [] then [] else Closes(files[1..]) + [Closed(files[0])]
  }

  /** The index of the first name that fails to open, or |names| when all open. */
  function FirstFailure(openError: string -> Option<Error>, names: seq<string>): (k: nat)
    ensures k <= |names|
    ensures forall j :: 0 <= j < k ==> openError(names[j]).None?
    ensures k < |names| ==> openError(names[k]).Some?
  {
    if names == [] then 0
    else if openError(names[0]).Some? then 0
    else 1 + FirstFailure(openError, names[1..])
  }

  /** The files opened from the first i names, descriptor by descriptor, are Descriptors of that prefix. */
  lemma DescriptorsOfPrefix(fd0: nat, names: seq<string>, i: nat, files: seq<File>)
    requires i <= |names| && |files| == i
    requires forall j :: 0 <= j < i ==> files[j] == File(fd0 + j, names[j])
    ensures files == Descriptors(fd0, names[..i])
  {
  }

  /** The files opened from names 0..i, descriptor by descriptor, extended by the file of name i. */
  lemma OpenedSnoc(fd0: nat, names: seq<string>, i: nat, files: seq<File>)
    requires i < |names| && |files| == i
    requires forall j :: 0 <= j < i ==> files[j] == File(fd0 + j, names[j])
    ensures var more := files + [File(fd0 + i, names[i])];
            |more| == i + 1 && forall j :: 0 <= j < i + 1 ==> more[j] == File(fd0 + j, names[j])
  {
  }

  /** Opening one more file extends the open events by one. */
  lemma OpensSnoc(files: seq<File>, f: File)
    ensures Opens(files + [f]) == Opens(files) + [Opened(f)]
  {
  }

  /** The first failure is at i when name i fails and every earlier name opens. */
  lemma FirstFailureIs(openError: string -> Option<Error>, names: seq<string>, i: nat)
    requires i <= |names|
    requires forall j :: 0 <= j < i ==> openError(names[j]).None?
    requires i < |names| ==> openError(names[i]).Some?
    ensures FirstFailure(openError, names) == i
  {
  }

  /** What a call of Readers returns and the events it causes. */
  datatype Observation = Observation(err: Option<Error>, events: seq<Event>)

  /**
   * Readers on a process whose next descriptor is `fd0`: the names are opened in
   * order up to the first failure; the callback runs only if none failed; every
   * file opened is closed when the call returns.
   */
  function ReadersRun(openError: string -> Option<Error>, fd0: nat, names: seq<string>,
                      cb: seq<File> -> Option<Error>): (run: Observation)
    ensures var k := FirstFailure(openError, names);
            |run.events| == 2 * k + (if k < |names| then 0 else 1)
    ensures FirstFailure(openError, names) < |names| ==> run.err.Some?
  {
    var k := FirstFailure(openError, names);
    var files := Descriptors(fd0, names[..k]);
    if k < |names| then Observation(openError(names[k]), Opens(files) + Closes(files))
    else Observation(cb(files), Opens(files) + [Called(files)] + Closes(files))
  }

  /** How many times `e` occurs in `events`. */
  function Count(events: seq<Event>, e: Event): (n: nat)
    ensures n <= |events|
    ensures n == 0 <==> e !in events
  {
    if events == [] then 0 else (if events[0] == e then 1 else 0) + Count(events[1..], e)
  }

  /** Occurrences in a concatenation add up. */
  lemma {:induction false} CountAppend(a: seq<Event>, b: seq<Event>, e: Event)
    ensures Count(a + b, e) == Count(a, e) + Count(b, e)
  {
    if a == [] {
      assert a + b == b;
    } else {
      assert (a + b)[1..] == a[1..] + b;
      CountAppend(a[1..], b, e);
    }
  }

  /** No two of `files` are the same file. */
  predicate Distinct(files: seq<File>)
  {
    forall a, b :: 0 <= a < b < |files| ==> files[a] != files[b]
  }

  /** Among distinct files, Opens opens each of them exactly once. */
  lemma {:induction false} OpensOnce(files: seq<File>, j: nat)
    requires Distinct(files) && j < |files|
    ensures Count(Opens(files), Opened(files[j])) == 1
  {
    var rest := files[1..];
    assert Opens(files) == [Opened(files[0])] + Opens(rest);
    CountAppend([Opened(files[0])], Opens(rest), Opened(files[j]));
    if j == 0 {
      assert forall m :: 0 <= m < |rest| ==> rest[m] == files[m + 1];
    } else {
      assert files[j] == rest[j - 1];
      OpensOnce(rest, j - 1);
    }
  }

  /** Among distinct files, Closes closes each of them exactly once. */
  lemma {:induction false} ClosesOnce(files: seq<File>, j: nat)
    requires Distinct(files) && j < |files|
    ensures Count(Closes(files), Closed(files[j])) == 1
  {
    var rest := files[1..];
    assert Closes(files) == Closes(rest) + [Closed(files[0])];
    CountAppend(Closes(rest), [Closed(files[0])], Closed(files[j]));
    if j == 0 {
      assert forall m :: 0 <= m < |rest| ==> rest[m] == files[m + 1];
    } else {
      assert files[j] == rest[j - 1];
      ClosesOnce(rest, j - 1);
    }
  }

  /** Open events never close anything, and close events never open anything. */
  lemma OpensAndClosesApart(files: seq<File>, f: File)
    ensures Closed(f) !in Opens(files) && Opened(f) !in Closes(files)
  {
    forall m | 0 <= m < |files|
      ensures Opens(files)[m] != Closed(f) && Closes(files)[m] != Opened(f)
    {
    }
  }

  /** With only callback events between the opens and the closes, each file is opened exactly once. */
  lemma OpenedOnceAround(files: seq<File>, between: seq<Event>, j: nat)
    requires Distinct(files) && j < |files|
    requires forall e :: e in between ==> e.Called?
    ensures Count(Opens(files) + between + Closes(files), Opened(files[j])) == 1
  {
    var f := files[j];
    OpensAndClosesApart(files, f);
    assert Opened(f) !in between;
    CountAppend(Opens(files) + between, Closes(files), Opened(f));
    CountAppend(Opens(files), between, Opened(f));
    OpensOnce(files, j);
  }

  /** With only callback events between the opens and the closes, each file is closed exactly once. */
  lemma ClosedOnceAround(files: seq<File>, between: seq<Event>, j: nat)
    requires Distinct(files) && j < |files|
    requires forall e :: e in between ==> e.Called?
    ensures Count(Opens(files) + between + Closes(files), Closed(files[j])) == 1
  {
    var f := files[j];
    OpensAndClosesApart(files, f);
    assert Closed(f) !in between;
    CountAppend(Opens(files) + between, Closes(files), Closed(f));
    CountAppend(Opens(files), between, Closed(f));
    ClosesOnce(files, j);
  }

  /** Opening files and closing them again involves only those files and never the callback. */
  lemma OnlyOpenedFilesTouched(files: seq<File>)
    ensures forall e :: e in Opens(files) + Closes(files) ==> !e.Called? && e.file in files
  {
    var events := Opens(files) + Closes(files);
    forall e | e in events
      ensures !e.Called? && e.file in files
    {
      var m :| 0 <= m < |events| && events[m] == e;
      if m >= |files| { assert events[m] == Closes(files)[m - |files|]; }
    }
  }

  /**
   * When name i is the first that fails to open, Readers returns that open
   * error unchanged, never calls the callback, and opens and closes exactly
   * the files of names 0..i-1, each once; nothing else happens.
   */
  lemma {:induction false} ReadersOpenFailure(openError: string -> Option<Error>, fd0: nat, names: seq<string>,
                                              cb: seq<File> -> Option<Error>, i: nat)
    requires i < |names| && openError(names[i]).Some?
    requires forall j :: 0 <= j < i ==> openError(names[j]).None?
    ensures var run := ReadersRun(openError, fd0, names, cb);
            && run.err == openError(names[i])
            && |run.events| == 2 * i
            && (forall e :: e in run.events ==> !e.Called? && e.file in Descriptors(fd0, names[..i]))
            && forall j :: 0 <= j < i ==>
                 && Count(run.events, Opened(File(fd0 + j, names[j]))) == 1
                 && Count(run.events, Closed(File(fd0 + j, names[j]))) == 1
  {
    FirstFailureIs(openError, names, i);
    var files := Descriptors(fd0, names[..i]);
    var events := Opens(files) + Closes(files);
    assert ReadersRun(openError, fd0, names, cb) == Observation(openError(names[i]), events);
    OnlyOpenedFilesTouched(files);
    forall j | 0 <= j < i
      ensures Count(events, Opened(File(fd0 + j, names[j]))) == 1
      ensures Count(events, Closed(File(fd0 + j, names[j]))) == 1
    {
      assert files[j] == File(fd0 + j, names[j]);
      assert events == Opens(files) + [] + Closes(files);
      OpenedOnceAround(files, [], j);
      ClosedOnceAround(files, [], j);
    }
  }

  /** Positions of the events of a successful Readers: opens, then the call, then closes. */
  lemma CallBetweenOpensAndCloses(files: seq<File>)
    ensures var events := Opens(files) + [Called(files)] + Closes(files);
            && |events| == 2 * |files| + 1
            && (forall m :: 0 <= m < |files| ==> events[m] == Opened(files[m]))
            && events[|files|] == Called(files)
            && (forall m :: |files| < m < |events| ==> events[m].Closed?)
  {
    var events := Opens(files) + [Called(files)] + Closes(files);
    forall m | |files| < m < |events|
      ensures events[m].Closed?
    {
      assert events[m] == Closes(files)[m - |files| - 1];
    }
  }

  /** In a successful Readers every opened file is opened once and closed once. */
  lemma {:induction false} EachClosedOnce(fd0: nat, names: seq<string>)
    ensures var files := Descriptors(fd0, names);
            var events := Opens(files) + [Called(files)] + Closes(files);
            forall j :: 0 <= j < |names| ==>
              Count(events, Opened(files[j])) == 1 && Count(events, Closed(files[j])) == 1
  {
    var files := Descriptors(fd0, names);
    forall j | 0 <= j < |names|
      ensures var events := Opens(files) + [Called(files)] + Closes(files);
              Count(events, Opened(files[j])) == 1 && Count(events, Closed(files[j])) == 1
    {
      OpenedOnceAround(files, [Called(files)], j);
      ClosedOnceAround(files, [Called(files)], j);
    }
  }

  /**
   * When every name opens, Readers opens them in input order, then calls the
   * callback exactly once with one reader per name in the same order, returns
   * the callback's error unchanged, and only then closes each file exactly once.
   */
  lemma {:induction false} ReadersAllOpen(openError: string -> Option<Error>, fd0: nat, names: seq<string>,
                       cb: seq<File> -> Option<Error>)
    requires forall j :: 0 <= j < |names| ==> openError(names[j]).None?
    ensures var run := ReadersRun(openError, fd0, names, cb);
            var files := Descriptors(fd0, names);
            && |files| == |names| && (forall j :: 0 <= j < |names| ==> files[j].name == names[j])
            && run.err == cb(files)
            && |run.events| == 2 * |names| + 1
            && (forall m :: 0 <= m < |names| ==> run.events[m] == Opened(files[m]))
            && run.events[|names|] == Called(files)
            && (forall m :: |names| < m < |run.events| ==> run.events[m].Closed?)
            && forall j :: 0 <= j < |names| ==>
                 Count(run.events, Opened(files[j])) == 1 && Count(run.events, Closed(files[j])) == 1
  {
    FirstFailureIs(openError, names, |names|);
    assert names[..|names|] == names;
    var files := Descriptors(fd0, names);
    assert ReadersRun(openError, fd0, names, cb)
        == Observation(cb(files), Opens(files) + [Called(files)] + Closes(files));
    CallBetweenOpensAndCloses(files);
    EachClosedOnce(fd0, names);
  }

  /** With no names Readers calls the callback with no readers and returns its error. */
  lemma ReadersNoNames(openError: string -> Option<Error>, fd0: nat, cb: seq<File> -> Option<Error>)
    ensures ReadersRun(openError, fd0, [], cb) == Observation(cb([]), [Called([])])
  {
    assert Descriptors(fd0, []) == [];
  }

  /** Runs the deferred closes of `deferred`, most recently deferred first. */
  method RunDeferred(p: Process, deferred: seq<File>)
    modifies p`trace
    ensures p.trace == old(p.trace) + Closes(deferred)
  {
    var i := |deferred|;
    while i > 0
      invariant 0 <= i <= |deferred|
      invariant p.trace == old(p.trace) + Closes(deferred[i..])
    {
      i := i - 1;
      assert deferred[i..][1..] == deferred[i + 1..];
      p.Close(deferred[i]);
    }
  }

  /** The readers slice once every slot is filled. */
  function Filled(slots: seq<Option<File>>): seq<File>
    requires forall j :: 0 <= j < |slots| ==> slots[j].Some?
  {
    seq(|slots|, j requires 0 <= j < |slots| => slots[j].value)
  }

  /**
   * Reader(fileName, cb): on an open failure returns that error without calling
   * `cb`; otherwise calls `cb` with the file, closes it, and returns `cb`'s error.
   */
  method Reader(p: Process, name: string, cb: File -> Option<Error>) returns (err: Option<Error>)
    modifies p
    ensures p.openError(name).Some? ==>
              err == p.openError(name) && p.trace == old(p.trace) && p.nextFd == old(p.nextFd)
    ensures p.openError(name).None? ==>
              var f := File(old(p.nextFd), name);
              err == cb(f) && p.nextFd == old(p.nextFd) + 1
              && p.trace == old(p.trace) + [Opened(f), Called([f]), Closed(f)]
  {
    var r := p.Open(name);
    if r.Failure? {
      return Some(r.error);
    }
    var f := r.value;
    p.Enter([f]);
    err := cb(f);
    p.Close(f);
  }

  /**
   * The loop of Readers: opens the names in order, storing each file in its
   * slot of `readers` and deferring its close, until an open fails.
   * `failure` is that open error (None when every name opened) and `deferred`
   * the closes still pending, in the order they were deferred.
   */
  method OpenEach(p: Process, names: seq<string>, readers: array<Option<File>>)
    returns (failure: Option<Error>, deferred: seq<File>)
    requires readers.Length == |names|
    modifies p, readers
    ensures var k := FirstFailure(p.openError, names);
            && deferred == Descriptors(old(p.nextFd), names[..k])
            && failure == (if k < |names| then p.openError(names[k]) else None)
            && p.nextFd == old(p.nextFd) + k
            && p.trace == old(p.trace) + Opens(deferred)
            && forall j :: 0 <= j < k ==> readers[j] == Some(deferred[j])
  {
    ghost var fd0 := p.nextFd;
    deferred := [];
    var i := 0;
    while i < |names|
      invariant 0 <= i <= |names|
      invariant forall j :: 0 <= j < i ==> p.openError(names[j]).None?
      invariant |deferred| == i
      invariant forall j :: 0 <= j < i ==> deferred[j] == File(fd0 + j, names[j])
      invariant p.nextFd == fd0 + i
      invariant p.trace == old(p.trace) + Opens(deferred)
      invariant forall j :: 0 <= j < i ==> readers[j] == Some(deferred[j])
    {
      var r := p.Open(names[i]);
      if r.Failure? {
        FirstFailureIs(p.openError, names, i);
        DescriptorsOfPrefix(fd0, names, i, deferred);
        return Some(r.error), deferred;
      }
      var f := r.value;
      assert f == File(fd0 + i, names[i]) && p.openError(names[i]).None?;
      assert forall j :: 0 <= j < i ==> readers[j] == Some(deferred[j]);
      readers[i] := Some(f);
      forall j | 0 <= j < i + 1
        ensures readers[j] == Some((deferred + [f])[j])
      {
      }
      OpensSnoc(deferred, f);
      OpenedSnoc(fd0, names, i, deferred);
      deferred := deferred + [f];
      i := i + 1;
    }
    FirstFailureIs(p.openError, names, i);
    assert names[..i] == names;
    DescriptorsOfPrefix(fd0, names, i, deferred);
    failure := None;
  }

  /**
   * Readers(fileNames, cb): opens the names in order into the readers slice,
   * deferring a close for each; returns the first open error, or else calls `cb`
   * with all the readers and returns its error. The deferred closes run on
   * either return.
   */
  method Readers(p: Process, names: seq<string>, cb: seq<File> -> Option<Error>) returns (err: Option<Error>)
    modifies p
    ensures var run := ReadersRun(p.openError, old(p.nextFd), names, cb);
            err == run.err && p.trace == old(p.trace) + run.events
    ensures p.nextFd == old(p.nextFd) + FirstFailure(p.openError, names)
  {
    ghost var fd0, before := p.nextFd, p.trace;
    var readers := new Option<File>[|names|](_ => None);
    var failure, deferred := OpenEach(p, names, readers);
    ghost var k := FirstFailure(p.openError, names);
    if failure.Some? {
      assert k < |names|;
      RunDeferred(p, deferred);
      assert p.trace == before + (Opens(deferred) + Closes(deferred));
      return failure;
    }
    assert k == |names| && names[..k] == names;
    var handed := Filled(readers[..]);
    assert handed == deferred;
    p.Enter(handed);
    err := cb(handed);
    RunDeferred(p, deferred);
    assert p.trace == before + (Opens(deferred) + [Called(deferred)] + Closes(deferred));
  }
}
