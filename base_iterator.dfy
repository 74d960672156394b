/**
 * The restartable cursor over the records of a file (class BaseIterator).
 *
 * The open stream is its contents `data` and a read position `pos`; end of stream
 * (`feof`) is `pos == |data|`. The abstract `getLine` of a concrete iterator is the
 * extraction step `getLine`: given the contents and the position, one record and the
 * position just past the text it consumed.
 */
module Cursor {
  import opened Wrappers

  /** The exceptions of the iterator. */
  datatype Error =
    | ResourceOpenError(filename: string)   // the file could not be opened for reading
    | NoResourceError                        // the handle is not (or no longer) open

  /** An extraction step: contents and position to one record and the next position. */
  type Step<!R> = (string, nat) --> (R, nat)

  /**
   * What every extraction step promises: it can run whenever data remains, it
   * strictly advances the position, and it never moves past the end of the data.
   */
  ghost predicate StepContract<R>(getLine: Step<R>)
  {
    forall data: string, pos: nat :: pos < |data| ==>
      getLine.requires(data, pos) && pos < getLine(data, pos).1 <= |data|
  }

  /**
   * The records a cursor produces from position `pos` on, one extraction step
   * at a time, until the end of the data. Each record consumes at least one character.
   */
  function Records<R>(getLine: Step<R>, data: string, pos: nat): (rs: seq<R>)
    requires StepContract(getLine) && pos <= |data|
    ensures |rs| <= |data| - pos
    ensures rs == [] <==> pos == |data|
    decreases |data| - pos
  {
    if pos == |data| then []
    else
      var step := getLine(data, pos);
      [step.0] + Records(getLine, data, step.1)
  }

  class BaseIterator<R> {
    /** The file the iterator was opened on. */
    const filename: string
    /** The contents of the open file. */
    const data: string
    /** The extraction step of the concrete iterator (its `getLine`). */
    const getLine: Step<R>

    /** The stream's read position. */
    var pos: nat
    /** Whether the handle is still an open resource. */
    var open: bool
    /** The current record, absent (null) until the first successful advance. */
    var line: Option<R>
    /** Whether the last advance found data. */
    var valid: bool
    /** The key of the current record; -1 before the first advance. */
    var index: int
    /** The records produced since construction or the last rewind, in order. */
    ghost var consumed: seq<R>

    /**
     * What every method keeps, a direct call of the splitter's `getLine` included: the
     * step meets its contract, the position is inside the data, the index counts the
     * records produced since the last rewind from -1, and the current record is the
     * last of them.
     */
    ghost predicate Coherent()
      reads this
    {
      && StepContract(getLine)
      && pos <= |data|
      && index == |consumed| - 1
      && (consumed != [] ==> line == Some(consumed[|consumed| - 1]))
    }

    /** The object invariant: coherent, and not valid only at the end of the stream. */
    ghost predicate Valid()
      reads this
    {
      Coherent() && (!valid ==> pos == |data|)
    }

    /**
     * The position follows the records: the records produced since the last rewind are
     * followed by exactly the records still to come. A rewind establishes it and every
     * advance keeps it; only a direct read that moves the position past a line breaks it.
     */
    ghost predicate OnTrack()
      reads this
    {
      Coherent() && Records(getLine, data, 0) == consumed + Records(getLine, data, pos)
    }

    /** The state of a cursor that has read nothing yet. */
    ghost predicate Unstarted()
      reads this
    {
      pos == 0 && line == None && index == -1 && valid && consumed == []
    }

    /** A cursor on a file that was opened successfully; nothing is read yet. */
    constructor (filename: string, data: string, getLine: Step<R>)
      requires StepContract(getLine)
      ensures Valid() && OnTrack() && Unstarted() && open
      ensures this.filename == filename && this.data == data && this.getLine == getLine
    {
      this.filename := filename;
      this.data := data;
      this.getLine := getLine;
      pos := 0;
      open := true;
      line := None;
      valid := true;
      index := -1;
      consumed := [];
    }

    /** `current()`: the current record; changes nothing. */
    function Current(): (r: Option<R>)
      requires Coherent()
      reads this
      ensures r == line
      ensures consumed != [] ==> r == Some(consumed[|consumed| - 1])
    {
      line
    }

    /** `key()`: the current index; changes nothing. */
    function Key(): (k: int)
      requires Coherent()
      reads this
      ensures k == index
      ensures k == |consumed| - 1 && k >= -1
    {
      index
    }

    /** `valid()`: the validity flag; changes nothing. */
    function IsValid(): (b: bool)
      requires Valid()
      reads this
      ensures b == valid
      ensures !b ==> pos == |data|
    {
      valid
    }

    /** `getResource()`: fails unless the handle is open. */
    function GetResource(): (r: Outcome<Error>)
      reads this
      ensures r.Pass? <==> open
      ensures r.Fail? ==> r.error == NoResourceError
    {
      if open then Pass else Fail(NoResourceError)
    }

    /**
     * `next()`: with data left, read one record through the extraction step, make it
     * current and increment the index; at the end of the stream, clear the validity flag
     * and change nothing else. Without an open handle, fail and change nothing.
     */
    method Next() returns (outcome: Outcome<Error>)
      requires Coherent()
      modifies this
      ensures Coherent() && open == old(open)
      ensures old(open) ==> Valid()
      ensures old(Valid()) ==> Valid()
      ensures old(OnTrack()) ==> OnTrack()
      ensures outcome == old(GetResource())
      ensures !old(open) ==> unchanged(this)
      ensures old(open) && old(pos) < |data| ==>
        && valid
        && line == Some(getLine(data, old(pos)).0)
        && pos == getLine(data, old(pos)).1 && old(pos) < pos
        && index == old(index) + 1
        && consumed == old(consumed) + [line.value]
      ensures old(open) && old(pos) == |data| ==>
        && !valid
        && line == old(line) && index == old(index) && pos == old(pos)
        && consumed == old(consumed)
    {
      outcome := GetResource();
      if outcome.Fail? {
        return;
      }
      if pos < |data| {
        valid := true;
        var step := getLine(data, pos);
        line := Some(step.0);
        pos := step.1;
        index := index + 1;
        consumed := consumed + [step.0];
      } else {
        valid := false;
      }
    }

    /**
     * `rewind()`: seek to the start, reset the index to -1 and advance once. Afterwards
     * the cursor holds the first record at index 0, or, on an empty file, is not valid.
     * Without an open handle, fail and change nothing.
     */
    method Rewind() returns (outcome: Outcome<Error>)
      requires StepContract(getLine)
      modifies this
      ensures open == old(open)
      ensures old(open) ==> Valid() && OnTrack()
      ensures old(Coherent()) ==> Coherent()
      ensures old(Valid()) ==> Valid()
      ensures outcome == old(GetResource())
      ensures !old(open) ==> unchanged(this)
      ensures old(open) && |data| > 0 ==>
        && valid && index == 0
        && line == Some(Records(getLine, data, 0)[0])
        && pos == getLine(data, 0).1
        && consumed == [line.value]
      ensures old(open) && |data| == 0 ==>
        && !valid && index == -1 && pos == 0
        && line == old(line)
        && consumed == []
    {
      outcome := GetResource();
      if outcome.Fail? {
        return;
      }
      pos := 0;
      index := -1;
      consumed := [];
      outcome := Next();
    }

    /** `__destruct()`: close the handle if it is open; closing again is harmless. */
    method Close()
      modifies this`open
      ensures !open
    {
      if open {
        open := false;
      }
    }

    /**
     * A `foreach` over the iterator: rewind, then while valid take (key, current) and
     * advance. It yields exactly the records of the file, in order, keyed 0 to N - 1.
     */
    method Foreach() returns (outcome: Outcome<Error>, pairs: seq<(int, R)>)
      requires StepContract(getLine)
      modifies this
      ensures open == old(open)
      ensures old(open) ==> Valid() && OnTrack()
      ensures outcome == old(GetResource())
      ensures !old(open) ==> pairs == [] && unchanged(this)
      ensures old(open) ==> !valid && pos == |data|
      ensures old(open) ==> |pairs| == |Records(getLine, data, 0)|
      ensures old(open) ==> forall i :: 0 <= i < |pairs| ==> pairs[i] == (i, Records(getLine, data, 0)[i])
    {
      pairs := [];
      outcome := Rewind();
      if outcome.Fail? {
        return;
      }
      ghost var all := Records(getLine, data, 0);
      while valid
        invariant Valid() && OnTrack() && open
        invariant valid ==> consumed != [] && |pairs| == index
        invariant !valid ==> |pairs| == |all|
        invariant forall i :: 0 <= i < |pairs| ==> pairs[i] == (i, all[i])
        decreases |data| - pos, if valid then 1 else 0
      {
        pairs := pairs + [(index, line.value)];
        var o := Next();
      }
    }

    /** Iterating to exhaustion twice yields the same (key, record) sequence both times. */
    method ForeachTwice() returns (first: seq<(int, R)>, second: seq<(int, R)>)
      requires StepContract(getLine) && open
      modifies this
      ensures Valid() && OnTrack() && open
      ensures first == second
      ensures |first| == |Records(getLine, data, 0)|
    {
      var o1, o2;
      o1, first := Foreach();
      o2, second := Foreach();
    }
  }

  /**
   * Construction of a concrete iterator: open `filename` in the file system `files`.
   * A missing file is a `ResourceOpenError`; otherwise the cursor is fresh.
   */
  method Open<R>(files: map<string, string>, filename: string, getLine: Step<R>)
    returns (r: Result<BaseIterator<R>, Error>)
    requires StepContract(getLine)
    ensures filename !in files <==> r.Failure?
    ensures r.Failure? ==> r.error == ResourceOpenError(filename)
    ensures r.Success? ==>
      && fresh(r.value) && r.value.Valid() && r.value.OnTrack() && r.value.Unstarted() && r.value.open
      && r.value.filename == filename && r.value.data == files[filename]
      && r.value.getLine == getLine
  {
    if filename !in files {
      return Failure(ResourceOpenError(filename));
    }
    var it := new BaseIterator(filename, files[filename], getLine);
    return Success(it);
  }
}
