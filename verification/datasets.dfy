/** One dataset split of datasets/sts.py (`DataSet`): a file read line by
    line into fixed-size batches, rewinding at end of file and counting the
    rewinds as completed epochs.

    The file is the sequence of its lines as `readline()` returns them,
    newline included; the open handle's read position is a line index into
    it, and end of file is the index `|lines|`. */
module DataSets {
  import opened Wrappers
  import Text
  import Entities

  /** The token-to-id and id-to-token maps (`vocab_w2i`, `vocab_i2w`). */
  datatype Vocab = Vocab(w2i: map<string, int>, i2w: map<int, string>)

  /** The `datafile` attribute: `None` before the first `open`, an open
      handle reading at a line index, or a handle that has been closed.
      A closed file object is still truthy, so it passes the open check of
      `next_batch` and fails only when it is read. */
  datatype Handle = NoHandle | OpenAt(cursor: nat) | Closed

  datatype DataSet = DataSet(path: string, epochs: nat, vocab: Vocab, handle: Handle)

  /** One line of the file: two space-tokenised sentences and the text of
      the similarity score. */
  datatype Row = Row(s1: seq<string>, s2: seq<string>, sim: string)

  /** The batch before id conversion, padding and rescaling. */
  datatype Batch = Batch(s1: seq<seq<string>>, s2: seq<seq<string>>, sim: seq<string>)

  datatype Error =
    | CannotOpen        // `open(path)` raised
    | NothingToClose    // `None.close()`
    | NotOpened         // the exception of `next_batch` before `open`
    | InvalidRescale    // `validate_rescale` rejected the range
    | ReadOnClosedFile  // `readline` on a closed file
    | MalformedRow      // fewer than three tab-separated fields

  /** `DataSet(path, vocab)`. */
  function NewDataSet(path: string, vocab: Vocab): (d: DataSet)
    ensures d.epochs == 0 && d.handle == NoHandle
    ensures d.path == path && d.vocab == vocab
  {
    DataSet(path, 0, vocab, NoHandle)
  }

  /** `open()`: a fresh handle at the first line, whatever was there
      before; `readable` is whether the file system lets the path open. */
  function Open(d: DataSet, readable: bool): (r: Result<DataSet, Error>)
    ensures r.Failure? <==> !readable
    ensures r.Success? ==> r.value.handle == OpenAt(0)
    ensures r.Success? ==> r.value.epochs == d.epochs && r.value.path == d.path && r.value.vocab == d.vocab
  {
    if readable then Success(d.(handle := OpenAt(0))) else Failure(CannotOpen)
  }

  /** `close()`: fails on a split that never had a handle; closing a
      closed handle again is harmless. */
  function Close(d: DataSet): (r: Result<DataSet, Error>)
    ensures r.Failure? <==> d.handle.NoHandle?
    ensures r.Success? ==> r.value == d.(handle := Closed)
  {
    if d.handle.NoHandle? then Failure(NothingToClose) else Success(d.(handle := Closed))
  }

  /** `set_vocab(vocab)`: only the vocabulary changes. */
  function SetVocab(d: DataSet, vocab: Vocab): (r: DataSet)
    ensures r.vocab == vocab
    ensures r.path == d.path && r.epochs == d.epochs && r.handle == d.handle
  {
    d.(vocab := vocab)
  }

  /** The `epochs_completed` property. */
  function EpochsCompleted(d: DataSet): nat
  {
    d.epochs
  }

  // ---------------------------------------------------------------------
  // Reading

  /** One read of the loop of `next_batch`: `readline()` returns the line at
      the cursor, or at end of file the empty string, upon which the epoch
      counter goes up and the handle seeks back to the start. */
  function Step(lines: seq<string>, cursor: nat, epochs: nat): (r: (Option<string>, nat, nat))
    requires cursor <= |lines|
    ensures r.1 <= |lines|
    ensures r.0.Some? <==> cursor < |lines|
    ensures r.0.Some? ==> r.0.value == lines[cursor] && r.1 == cursor + 1 && r.2 == epochs
    ensures r.0.None? ==> r.1 == 0 && r.2 == epochs + 1
  {
    if cursor == |lines| then (None, 0, epochs + 1)
    else (Some(lines[cursor]), cursor + 1, epochs)
  }

  /** Counting positions over the file repeated endlessly, the epochs and
      the cursor together name the position `epochs * |lines| + cursor`:
      each read moves it one line forward exactly when it yields a line,
      and an end of file leaves it where it was. */
  lemma StepPosition(lines: seq<string>, cursor: nat, epochs: nat)
    requires cursor <= |lines|
    ensures var (got, c, e) := Step(lines, cursor, epochs);
            e * |lines| + c == epochs * |lines| + cursor + (if got.Some? then 1 else 0)
  {
  }

  lemma LapStep(x: int, n: int)
    ensures (x + 1) * n == x * n + n
  {
  }

  /** `k` reads from the given position: how many yielded a line, and the
      cursor and epoch counter after them. Every read either yields a line
      or completes an epoch. */
  function Steps(lines: seq<string>, cursor: nat, epochs: nat, k: nat): (r: (nat, nat, nat))
    requires cursor <= |lines|
    ensures r.1 <= |lines|
    ensures r.0 <= k && r.2 == epochs + (k - r.0)
    decreases k
  {
    if k == 0 then (0, cursor, epochs)
    else
      var (got, c, e) := Step(lines, cursor, epochs);
      var (m, c', e') := Steps(lines, c, e, k - 1);
      ((if got.Some? then 1 else 0) + m, c', e')
  }

  /** On an empty file no read ever yields a line: every read is an end of
      file and bumps the counter, so `next_batch` never fills a batch. */
  lemma {:induction false} EmptyFileNeverYields(epochs: nat, k: nat)
    ensures Steps([], 0, epochs, k) == (0, 0, epochs + k)
    decreases k
  {
    if k > 0 {
      EmptyFileNeverYields(epochs + 1, k - 1);
    }
  }

  /** On a non-empty file two reads in a row never both hit end of file,
      so `k` reads yield at least `k / 2` lines. */
  lemma {:induction false} NonEmptyFileYields(lines: seq<string>, cursor: nat, epochs: nat, k: nat)
    requires |lines| > 0 && cursor <= |lines|
    ensures Steps(lines, cursor, epochs, k).0 >= k / 2
    decreases k
  {
    if k >= 2 {
      var (got, c, e) := Step(lines, cursor, epochs);
      if got.Some? {
        NonEmptyFileYields(lines, c, e, k - 1);
      } else {
        var (got2, c2, e2) := Step(lines, c, e);
        assert got2.Some?;
        NonEmptyFileYields(lines, c2, e2, k - 2);
      }
    }
  }

  /** A line is stripped of surrounding whitespace, then its fields are
      taken apart. */
  function ParseRow(line: string): (r: Result<Row, Error>)
    ensures r.Success? <==> Text.Count(Text.Strip(line), '\t') >= 2
    ensures r.Failure? ==> r.error == MalformedRow
  {
    ParseFields(Text.Strip(line))
  }

  /** A stripped line is split on tabs and its first three fields taken: a
      line with fewer than three fields raises, fields past the third are
      ignored. Each sentence is split on single spaces. */
  function ParseFields(stripped: string): (r: Result<Row, Error>)
    ensures r.Success? <==> Text.Count(stripped, '\t') >= 2
    ensures r.Failure? ==> r.error == MalformedRow
  {
    var cols := Text.Split(stripped, '\t');
    if |cols| < 3 then Failure(MalformedRow)
    else Success(Row(Text.Split(cols[0], ' '), Text.Split(cols[1], ' '), cols[2]))
  }

  /** The line a row is written as: the sentences joined with single spaces,
      then the three fields joined with tabs. */
  function FormatRow(row: Row): string
  {
    Text.Join([Text.Join(row.s1, ' '), Text.Join(row.s2, ' '), row.sim], '\t')
  }

  /** A row whose tokens hold neither a space nor a tab, whose score holds
      no tab, and whose line neither starts nor ends with whitespace (the
      first token does not start with it, the score does not end with it)
      is read back from its line unchanged; stripping leaves that line as
      it is. */
  lemma ParseFormatRoundTrip(row: Row)
    requires |row.s1| >= 1 && |row.s2| >= 1
    requires forall i :: 0 <= i < |row.s1| ==> ' ' !in row.s1[i] && '\t' !in row.s1[i]
    requires forall i :: 0 <= i < |row.s2| ==> ' ' !in row.s2[i] && '\t' !in row.s2[i]
    requires '\t' !in row.sim
    requires |row.s1[0]| > 0 && !Text.IsSpace(row.s1[0][0])
    requires |row.sim| > 0 && !Text.IsSpace(row.sim[|row.sim| - 1])
    ensures Text.Strip(FormatRow(row)) == FormatRow(row)
    ensures ParseRow(FormatRow(row)) == Success(row)
  {
    var j1, j2 := Text.Join(row.s1, ' '), Text.Join(row.s2, ' ');
    Text.JoinAvoids(row.s1, ' ', '\t');
    Text.JoinAvoids(row.s2, ' ', '\t');
    var fields := [j1, j2, row.sim];
    Text.JoinEnds(row.s1, ' ');
    Text.JoinEnds(fields, '\t');
    Text.StripUnchanged(FormatRow(row));
    Text.SplitJoin(fields, '\t');
    Text.SplitJoin(row.s1, ' ');
    Text.SplitJoin(row.s2, ' ');
  }

  /** A line whose stripped text has exactly three fields is parsed into a
      row that is written back as the stripped line. */
  lemma FormatParseRoundTrip(line: string)
    requires Text.Count(Text.Strip(line), '\t') == 2
    ensures ParseRow(line).Success?
    ensures FormatRow(ParseRow(line).value) == Text.Strip(line)
  {
    var cols := Text.Split(Text.Strip(line), '\t');
    Text.JoinSplit(Text.Strip(line), '\t');
    Text.JoinSplit(cols[0], ' ');
    Text.JoinSplit(cols[1], ' ');
    assert cols == [cols[0], cols[1], cols[2]];
  }

  /** A sentence row's fields past the third are ignored: the stripped
      line starts with the parsed row written back, and anything after it
      begins with a tab. The score is the whole third field. */
  lemma ExtraFieldsIgnored(stripped: string)
    requires Text.Count(stripped, '\t') >= 2
    ensures ParseFields(stripped).Success?
    ensures var line := FormatRow(ParseFields(stripped).value);
            && |line| <= |stripped| && stripped[..|line|] == line
            && (|line| < |stripped| ==> stripped[|line|] == '\t')
    ensures '\t' !in ParseFields(stripped).value.sim
  {
    var cols := Text.Split(stripped, '\t');
    Text.JoinSplit(stripped, '\t');
    Text.JoinHead(cols, '\t', 3);
    Text.JoinSplit(cols[0], ' ');
    Text.JoinSplit(cols[1], ' ');
    assert cols[..3] == [cols[0], cols[1], cols[2]];
  }

  /** Stripping comes before splitting, so leading whitespace, a tab
      included, is not a field boundary: `"\t" + rest` parses as `rest`
      does, every field shifted one place to the left. */
  lemma LeadingWhitespaceIgnored(c: char, rest: string)
    requires Text.IsSpace(c)
    ensures ParseRow([c] + rest) == ParseRow(rest)
  {
    assert ([c] + rest)[1..] == rest;
  }

  /** So a line with exactly two tabs whose first field is empty loses its
      first tab to `strip()` and has too few fields. */
  lemma LeadingTabTooFewFields(line: string)
    requires |line| > 0 && line[0] == '\t'
    requires Text.Count(line, '\t') == 2
    ensures ParseRow(line) == Failure(MalformedRow)
  {
    assert line == [line[0]] + line[1..];
    LeadingWhitespaceIgnored('\t', line[1..]);
    Text.CountStrip(line[1..], '\t');
  }

  /** Trailing whitespace is stripped before splitting, so it is never
      part of the score. */
  lemma TrailingWhitespaceIgnored(line: string, c: char)
    requires Text.IsSpace(c)
    ensures ParseRow(line + [c]) == ParseRow(line)
  {
    Text.StripTrailingSpace(line, c);
  }

  /** In particular the newline `readline()` keeps at the end of a line
      changes nothing. */
  lemma TrailingNewlineIgnored(line: string)
    ensures ParseRow(line + "\n") == ParseRow(line)
  {
    TrailingWhitespaceIgnored(line, '\n');
  }

  // ---------------------------------------------------------------------
  // Batches

  /** The line read for the `j`-th row of a batch started at `start`: the
      file is read cyclically, so a batch may span the end of file. */
  function LineAt(lines: seq<string>, start: nat, j: nat): string
    requires |lines| > 0
  {
    lines[(start + j) % |lines|]
  }

  /** The entity step: listed tokens are dropped unless `keep_entities`. */
  function EntityStep(keep: bool, tokens: seq<string>): (r: seq<string>)
    ensures keep ==> r == tokens
    ensures !keep ==> |r| <= |tokens| && forall i :: 0 <= i < |r| ==> !Entities.IsEntity(r[i])
  {
    if keep then tokens else Entities.FilterTokens(tokens)
  }

  /** The `k` lines read from `start` onward all parse as rows. */
  ghost predicate RowsWellFormed(lines: seq<string>, start: nat, k: nat)
    requires |lines| > 0
  {
    forall j :: 0 <= j < k ==> ParseRow(LineAt(lines, start, j)).Success?
  }

  /** `b` holds, in order, the rows of the `k` lines read from `start`
      onward, after the entity step. */
  ghost predicate BatchFrom(b: Batch, lines: seq<string>, start: nat, k: nat, keep: bool)
    requires |lines| > 0
  {
    && |b.s1| == k && |b.s2| == k && |b.sim| == k
    && forall j :: 0 <= j < k ==>
         var r := ParseRow(LineAt(lines, start, j));
         && r.Success?
         && b.s1[j] == EntityStep(keep, r.value.s1)
         && b.s2[j] == EntityStep(keep, r.value.s2)
         && b.sim[j] == r.value.sim
  }

  /** `st'` is `st` after `k` lines were read from an `n`-line file: the
      position `epochs * n + cursor` moved forward by `k`, and after at
      least one line the cursor sits just past the line last read (end of
      file is noticed only by the next read). */
  ghost predicate Advanced(n: nat, st: DataSet, k: nat, st': DataSet)
  {
    && st.handle.OpenAt? && st'.handle.OpenAt?
    && st'.path == st.path && st'.vocab == st.vocab
    && if k == 0 then st' == st
       else
         && st'.epochs >= st.epochs
         && (st'.epochs - st.epochs) * n + st'.handle.cursor == st.handle.cursor + k
         && 1 <= st'.handle.cursor <= n
  }

  /** The lines `readline()` can return from a real file: none is empty,
      a newline occurs only as a line's last character, and only the last
      line may lack it. */
  predicate ValidFile(lines: seq<string>)
  {
    forall i :: 0 <= i < |lines| ==>
      && |lines[i]| > 0
      && (forall j :: 0 <= j < |lines[i]| - 1 ==> lines[i][j] != '\n')
      && (i < |lines| - 1 ==> lines[i][|lines[i]| - 1] == '\n')
  }

  /** A read position never lies past the end of the file. */
  predicate Consistent(st: DataSet, lines: seq<string>)
  {
    st.handle.OpenAt? ==> st.handle.cursor <= |lines|
  }

  /** The loop of `next_batch` is entered on an open handle only when the
      file has a line: on an empty file it spins forever. */
  predicate Terminates(st: DataSet, lines: seq<string>, batchSize: int, rescaleValid: bool)
  {
    st.handle.OpenAt? && rescaleValid && batchSize > 0 ==> |lines| > 0
  }

  /** Position arithmetic: `q * n + r` with `r < n` lies in lap `q` at
      offset `r`. */
  lemma Position(n: nat, q: nat, r: nat, a: nat)
    requires 0 <= r < n
    requires q * n + r == a
    ensures a / n == q && a % n == r
  {
    var q', r' := a / n, a % n;
    assert q' * n + r' == a;
    if q > q' {
      MulAtLeast(q - q', n);
      assert false;
    } else if q < q' {
      MulAtLeast(q' - q, n);
      assert false;
    }
  }

  lemma MulAtLeast(x: int, n: int)
    requires x >= 1 && n >= 0
    ensures x * n >= n
  {
  }

  /** Row `j` of the columns collected so far is the parse of the `j`-th
      line read from `start`. */
  ghost predicate RowsRead(lines: seq<string>, start: nat, s1s: seq<seq<string>>, s2s: seq<seq<string>>, sims: seq<string>)
    requires |lines| > 0
  {
    && |s1s| == |s2s| == |sims|
    && forall j :: 0 <= j < |s1s| ==>
         ParseRow(LineAt(lines, start, j)) == Success(Row(s1s[j], s2s[j], sims[j]))
  }

  lemma RowsReadExtend(lines: seq<string>, start: nat, s1s: seq<seq<string>>, s2s: seq<seq<string>>, sims: seq<string>, r: Row)
    requires |lines| > 0
    requires RowsRead(lines, start, s1s, s2s, sims)
    requires ParseRow(LineAt(lines, start, |s1s|)) == Success(r)
    ensures RowsRead(lines, start, s1s + [r.s1], s2s + [r.s2], sims + [r.sim])
  {
  }

  /** The read loop of `next_batch`: read from position `(c0, e0)` until `k`
      rows are collected, rewinding at end of file. `read` counts the lines
      read; it stops short of `k` (with `ok` false) only at a line that does
      not parse, which is read but not collected. */
  method ReadRows(lines: seq<string>, c0: nat, e0: nat, k: nat)
    returns (cursor: nat, epochs: nat, read: nat, ok: bool,
             s1s: seq<seq<string>>, s2s: seq<seq<string>>, sims: seq<string>)
    requires |lines| > 0 && c0 <= |lines| && k > 0
    ensures 1 <= cursor <= |lines| && epochs >= e0
    ensures (epochs - e0) * |lines| + cursor == c0 + read
    ensures ok <==> RowsWellFormed(lines, c0, k)
    ensures ok ==> read == k && |s1s| == k && |s2s| == k && |sims| == k
    ensures ok ==> forall j :: 0 <= j < k ==>
                     ParseRow(LineAt(lines, c0, j)) == Success(Row(s1s[j], s2s[j], sims[j]))
    ensures !ok ==> 1 <= read <= k && RowsWellFormed(lines, c0, read - 1)
                    && ParseRow(LineAt(lines, c0, read - 1)).Failure?
  {
    var n := |lines|;
    cursor, epochs := c0, e0;
    s1s, s2s, sims := [], [], [];
    ghost var laps: nat, base: nat := 0, 0;
    while |s1s| < k
      invariant 0 <= cursor <= n
      invariant epochs >= e0
      invariant |s1s| == |s2s| == |sims| <= k
      invariant laps == epochs - e0 && base == laps * n
      invariant base + cursor == c0 + |s1s|
      invariant |s1s| == k ==> cursor >= 1
      invariant RowsRead(lines, c0, s1s, s2s, sims)
      decreases k - |s1s|, if cursor == n then 1 else 0
    {
      var (got, c', e') := Step(lines, cursor, epochs);
      if got.None? {
        LapStep(laps, n);
        cursor, epochs := c', e';
        laps, base := laps + 1, base + n;
        continue;
      }
      Position(n, laps, cursor, c0 + |s1s|);
      assert got.value == LineAt(lines, c0, |s1s|);
      cursor, epochs := c', e';
      var row := ParseRow(got.value);
      if row.Failure? {
        read, ok := |s1s| + 1, false;
        return;
      }
      RowsReadExtend(lines, c0, s1s, s2s, sims, row.value);
      s1s, s2s, sims := s1s + [row.value.s1], s2s + [row.value.s2], sims + [row.value.sim];
    }
    read, ok := k, true;
  }

  /** `next_batch(batch_size, keep_entities=...)` up to the entity step.
      `rescaleValid` is the verdict of `validate_rescale` on the requested
      range. */
  method NextBatch(st: DataSet, lines: seq<string>, batchSize: int, rescaleValid: bool, keepEntities: bool)
    returns (st': DataSet, out: Result<Batch, Error>)
    requires ValidFile(lines)
    requires Consistent(st, lines)
    requires Terminates(st, lines, batchSize, rescaleValid)
    ensures Consistent(st', lines)
    ensures st'.path == st.path && st'.vocab == st.vocab && st'.epochs >= st.epochs
    ensures st.handle.NoHandle? ==> st' == st && out == Failure(NotOpened)
    ensures !st.handle.NoHandle? && !rescaleValid ==> st' == st && out == Failure(InvalidRescale)
    ensures st.handle.Closed? && rescaleValid && batchSize > 0 ==>
              st' == st && out == Failure(ReadOnClosedFile)
    ensures !st.handle.NoHandle? && rescaleValid && batchSize <= 0 ==>
              st' == st && out == Success(Batch([], [], []))
    ensures st.handle.OpenAt? && rescaleValid && batchSize > 0 ==>
              var n, c := |lines|, st.handle.cursor;
              && (out.Success? <==> RowsWellFormed(lines, c, batchSize))
              && (out.Success? ==>
                    && BatchFrom(out.value, lines, c, batchSize, keepEntities)
                    && Advanced(n, st, batchSize, st')
                    && st'.epochs == st.epochs + (c + batchSize - 1) / n
                    && st'.handle.cursor == (c + batchSize - 1) % n + 1)
              && (out.Failure? ==>
                    && out.error == MalformedRow
                    && exists j :: 0 <= j < batchSize
                                   && RowsWellFormed(lines, c, j)
                                   && ParseRow(LineAt(lines, c, j)).Failure?
                                   && Advanced(n, st, j + 1, st'))
  {
    if st.handle.NoHandle? {
      return st, Failure(NotOpened);
    }
    if !rescaleValid {
      return st, Failure(InvalidRescale);
    }
    if batchSize <= 0 {
      return st, Success(Batch([], [], []));
    }
    if st.handle.Closed? {
      return st, Failure(ReadOnClosedFile);
    }
    var n, c0 := |lines|, st.handle.cursor;
    var cursor, epochs, read, ok, s1s, s2s, sims := ReadRows(lines, c0, st.epochs, batchSize);
    st' := st.(epochs := epochs, handle := OpenAt(cursor));
    if !ok {
      out := Failure(MalformedRow);
      assert Advanced(n, st, read, st');
      return;
    }
    Position(n, epochs - st.epochs, cursor - 1, c0 + batchSize - 1);
    if !keepEntities {
      s1s := Entities.RemoveEntities(s1s);
      s2s := Entities.RemoveEntities(s2s);
    }
    out := Success(Batch(s1s, s2s, sims));
  }

  // ---------------------------------------------------------------------
  // Epoch accounting across batches

  /** Reading `k1` lines and then `k2` more is reading `k1 + k2` lines. */
  lemma AdvancedCompose(n: nat, a: DataSet, k1: nat, b: DataSet, k2: nat, c: DataSet)
    requires Advanced(n, a, k1, b) && Advanced(n, b, k2, c)
    ensures Advanced(n, a, k1 + k2, c)
  {
  }

  function Sum(ks: seq<nat>): nat
  {
    if ks == [] then 0 else Sum(ks[..|ks| - 1]) + ks[|ks| - 1]
  }

  /** A run of batches, batch `i` taking `sizes[i]` lines from `states[i]`
      to `states[i + 1]`, reads `Sum(sizes)` lines in all. */
  lemma {:induction false} SessionAdvances(n: nat, states: seq<DataSet>, sizes: seq<nat>)
    requires |states| == |sizes| + 1
    requires states[0].handle.OpenAt?
    requires forall i :: 0 <= i < |sizes| ==> Advanced(n, states[i], sizes[i], states[i + 1])
    ensures Advanced(n, states[0], Sum(sizes), states[|sizes|])
  {
    if sizes != [] {
      var m := |sizes| - 1;
      SessionAdvances(n, states[..m + 1], sizes[..m]);
      AdvancedCompose(n, states[0], Sum(sizes[..m]), states[m], sizes[m], states[m + 1]);
    }
  }

  /** The epoch counter counts end-of-file hits: a split opened and then
      read for `R >= 1` lines in total over an `n`-line file has completed
      `(R - 1) / n` more epochs than before `open` (which does not reset the
      counter), and its cursor is just past line `(R - 1) % n`. */
  lemma EpochsCountWraparounds(d: DataSet, n: nat, states: seq<DataSet>, sizes: seq<nat>)
    requires n > 0
    requires |states| == |sizes| + 1 && Sum(sizes) >= 1
    requires Open(d, true) == Success(states[0])
    requires forall i :: 0 <= i < |sizes| ==> Advanced(n, states[i], sizes[i], states[i + 1])
    ensures EpochsCompleted(states[|sizes|]) == EpochsCompleted(d) + (Sum(sizes) - 1) / n
    ensures states[|sizes|].handle == OpenAt((Sum(sizes) - 1) % n + 1)
  {
    SessionAdvances(n, states, sizes);
    var last := states[|sizes|];
    Position(n, last.epochs - d.epochs, last.handle.cursor - 1, Sum(sizes) - 1);
  }

  /** End of file is noticed only by the read after the last line: batches
      that take exactly the `n` lines of the file once leave the counter at
      zero with the cursor at the end, and one more line completes the
      epoch. */
  lemma EofNoticedLazily(path: string, vocab: Vocab, n: nat, states: seq<DataSet>, sizes: seq<nat>)
    requires n > 0
    requires |states| == |sizes| + 1 && (Sum(sizes) == n || Sum(sizes) == n + 1)
    requires Open(NewDataSet(path, vocab), true) == Success(states[0])
    requires forall i :: 0 <= i < |sizes| ==> Advanced(n, states[i], sizes[i], states[i + 1])
    ensures Sum(sizes) == n ==> EpochsCompleted(states[|sizes|]) == 0 && states[|sizes|].handle == OpenAt(n)
    ensures Sum(sizes) == n + 1 ==> EpochsCompleted(states[|sizes|]) == 1 && states[|sizes|].handle == OpenAt(1)
  {
    EpochsCountWraparounds(NewDataSet(path, vocab), n, states, sizes);
    if Sum(sizes) == n {
      Position(n, 0, n - 1, n - 1);
    } else {
      Position(n, 1, 0, n);
    }
  }
}
