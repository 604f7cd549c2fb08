/**
 * The argument tokeniser of user/xargs.c. The program copies its own
 * arguments into the rows of a static 16 x 32 byte array `parament`, then
 * reads standard input a byte at a time: a space ends the current
 * parameter, a newline ends the line and runs `exec(argv[1], ptr + 1)` in a
 * child, and any other byte is appended to the current parameter.
 *
 * `parament` is laid out by C as one block of 512 bytes, and a parameter is
 * read as a C string starting at its row, so the model keeps it as one flat
 * sequence and `ptr[k]` as the offset of the row it points to (None for
 * NULL). Reading standard input becomes a sequence of bytes, and fork plus
 * exec become an emitted record of the program path and argument list.
 */
module Xargs {
  import opened Common

  const PARA_LEN: nat := 32
  const PARA_NUM_MAX: nat := 16
  /** The size of `parament` in bytes. */
  const MEM: nat := 512
  const NUL: char := '\0'

  datatype Status =
    | Running
    | TooMany       // "parament too much": more than PARA_NUM_MAX arguments
    | TooLong       // "parament too long": an argument does not fit a row
    | Overlip       // "overlip!": a parameter would grow past PARA_LEN bytes
    | OutOfBounds   // an index runs off `ptr` or `parament`, which C leaves undefined

  /** One `exec(path, args)` run by a child: `path` is None for a NULL `argv[1]`. */
  datatype Exec = Exec(path: Option<string>, args: seq<string>)

  /**
   * AsWritten follows the source; Corrected ends the argument list with a
   * NULL at a newline and stops a parameter at PARA_LEN - 1 bytes, which
   * leaves room for its terminator inside its row.
   */
  datatype Variant = AsWritten | Corrected

  /** The program's variables between two input bytes. */
  datatype State = State(mem: seq<char>, ptr: seq<Option<nat>>, i: nat, j: nat,
                         status: Status, execs: seq<Exec>)

  ghost predicate WellFormed(st: State)
  {
    |st.mem| == MEM && |st.ptr| == PARA_NUM_MAX && st.i < PARA_NUM_MAX && st.j <= PARA_LEN
  }

  /** The C string stored at offset `off`: the bytes up to the first NUL, None if none before the end. */
  function CStr(mem: seq<char>, off: nat): Option<string>
    decreases |mem| - off
  {
    if off >= |mem| then None
    else if mem[off] == NUL then Some([])
    else match CStr(mem, off + 1)
      case None => None
      case Some(s) => Some([mem[off]] + s)
  }

  /**
   * The argument list exec reads from `ptr + k`: strings up to the first
   * NULL pointer; None if it reads past `ptr` or past `parament`.
   */
  function ArgsFrom(mem: seq<char>, ptr: seq<Option<nat>>, k: nat): Option<seq<string>>
    decreases PARA_NUM_MAX - k
  {
    if k >= PARA_NUM_MAX || k >= |ptr| then None
    else match ptr[k]
      case None => Some([])
      case Some(off) =>
        match CStr(mem, off)
        case None => None
        case Some(s) =>
          match ArgsFrom(mem, ptr, k + 1)
          case None => None
          case Some(rest) => Some([s] + rest)
  }

  /** `argv[1]`, NULL when there is only `argv[0]`. */
  function Path(argv: seq<string>): Option<string>
  {
    if |argv| > 1 then Some(argv[1]) else None
  }

  /** `parament` after the first `n` arguments were copied into their rows (static storage starts zeroed). */
  function RowsMem(argv: seq<string>, n: nat): (m: seq<char>)
    requires n <= |argv| && n <= PARA_NUM_MAX
    ensures |m| == MEM
  {
    seq(MEM, p requires 0 <= p < MEM => if p / PARA_LEN < n && p % PARA_LEN < |argv[p / PARA_LEN]| then argv[p / PARA_LEN][p % PARA_LEN] else NUL)
  }

  /** Every argument fits a row together with its terminator. */
  predicate ArgsFit(argv: seq<string>)
  {
    forall k :: 0 <= k < |argv| ==> |argv[k]| + 1 <= PARA_LEN
  }

  function Fail(st: State, s: Status): State
  {
    st.(status := s)
  }

  /** The state when the first byte is read, or the exit the argument checks take. */
  function Setup(argv: seq<string>): (st: State)
    ensures st.status == Running ==> WellFormed(st)
  {
    var empty := State(seq(MEM, _ => NUL), seq(PARA_NUM_MAX, _ => None), 0, 0, Running, []);
    if |argv| > PARA_NUM_MAX then Fail(empty, TooMany)
    else if !ArgsFit(argv) then Fail(empty, TooLong)
    else if |argv| == PARA_NUM_MAX then Fail(empty.(mem := RowsMem(argv, |argv|)), OutOfBounds)
    else State(RowsMem(argv, |argv|), seq(PARA_NUM_MAX, k => if k <= |argv| then Some(k * PARA_LEN) else None),
               |argv|, 0, Running, [])
  }

  /** memset(parament[row], '\0', PARA_LEN). */
  function ClearRow(mem: seq<char>, row: nat): (m: seq<char>)
    ensures |m| == |mem|
  {
    seq(|mem|, p requires 0 <= p < |mem| => if row * PARA_LEN <= p < row * PARA_LEN + PARA_LEN then NUL else mem[p])
  }

  /** The longest parameter the overlip check lets through. */
  function Limit(v: Variant): nat
  {
    if v == AsWritten then PARA_LEN else PARA_LEN - 1
  }

  /** One iteration of the byte loop. */
  function Step(v: Variant, argv: seq<string>, st: State, c: char): (st': State)
    requires st.status == Running ==> WellFormed(st)
    requires |argv| < PARA_NUM_MAX
    ensures st'.status == Running ==> WellFormed(st')
  {
    if st.status != Running then st
    else
      var at := st.i * PARA_LEN + st.j;
      if c == '\n' || c == ' ' then
        if at >= MEM then Fail(st, OutOfBounds)
        else
          var i1 := st.i + 1;
          if i1 >= PARA_NUM_MAX then Fail(st.(mem := st.mem[at := NUL]), OutOfBounds)
          else
            var mem := ClearRow(st.mem[at := NUL], i1);
            if c == ' ' then
              State(mem, st.ptr[i1 := Some(i1 * PARA_LEN)], i1, 0, Running, st.execs)
            else
              var ptr := st.ptr[i1 := if v == AsWritten then Some(i1 * PARA_LEN) else None];
              match ArgsFrom(mem, ptr, 1)
              case None => Fail(State(mem, ptr, i1, 0, Running, st.execs), OutOfBounds)
              case Some(args) => State(mem, ptr, |argv|, 0, Running, st.execs + [Exec(Path(argv), args)])
      else if st.j >= Limit(v) then Fail(st, Overlip)
      else State(st.mem[at := c], st.ptr, st.i, st.j + 1, Running, st.execs)
  }

  /** The state after the program has read `input`. */
  function Run(v: Variant, argv: seq<string>, input: seq<char>): (st: State)
    ensures st.status == Running ==> WellFormed(st) && |argv| < PARA_NUM_MAX
  {
    if input == [] then Setup(argv)
    else
      var st := Run(v, argv, input[..|input| - 1]);
      if st.status != Running then st
      else Step(v, argv, st, input[|input| - 1])
  }

  /** Once the program has exited, further input changes nothing. */
  lemma {:induction false} RunStops(v: Variant, argv: seq<string>, input: seq<char>, k: nat)
    requires k <= |input| && Run(v, argv, input[..k]).status != Running
    ensures Run(v, argv, input) == Run(v, argv, input[..k])
    decreases |input| - k
  {
    if k < |input| {
      assert input[..k + 1][..k] == input[..k];
      RunStops(v, argv, input, k + 1);
    } else {
      assert input[..k] == input;
    }
  }

  /** Reading one more byte is one more Step. */
  lemma RunNext(v: Variant, argv: seq<string>, input: seq<char>, k: nat)
    requires k < |input| && Run(v, argv, input[..k]).status == Running
    ensures Run(v, argv, input[..k + 1]) == Step(v, argv, Run(v, argv, input[..k]), input[k])
  {
    assert input[..k + 1][..k] == input[..k];
  }

  /** memset(parament[row], '\0', sizeof(parament[row])). */
  method Memset(a: array<char>, row: nat)
    requires row < PARA_NUM_MAX && a.Length == MEM
    modifies a
    ensures a[..] == ClearRow(old(a[..]), row)
  {
    forall p | row * PARA_LEN <= p < row * PARA_LEN + PARA_LEN {
      a[p] := NUL;
    }
  }

  /**
   * main: returns how the program ends and the execs its children ran.
   * `argv[0]`, the program's own name, is always present.
   */
  method RunXargs(argv: seq<string>, input: seq<char>) returns (status: Status, execs: seq<Exec>)
    requires |argv| >= 1
    ensures status == Run(AsWritten, argv, input).status
    ensures execs == Run(AsWritten, argv, input).execs
  {
    var ptr := new Option<nat>[PARA_NUM_MAX](_ => None);
    var parament := new char[MEM](_ => NUL);
    execs := [];
    var argc := |argv|;
    if argc > PARA_NUM_MAX {
      status := TooMany;
      RunStops(AsWritten, argv, input, 0);
      return;
    }
    var i: nat := 0;
    while i < argc
      invariant 0 <= i <= argc
      invariant forall r :: 0 <= r < i ==> |argv[r]| + 1 <= PARA_LEN
      invariant parament[..] == RowsMem(argv, i)
      invariant ptr[..] == seq(PARA_NUM_MAX, r => if r < i then Some(r * PARA_LEN) else None)
    {
      if |argv[i]| + 1 > PARA_LEN {
        status := TooLong;
        assert !ArgsFit(argv);
        RunStops(AsWritten, argv, input, 0);
        return;
      }
      forall p | i * PARA_LEN <= p < i * PARA_LEN + PARA_LEN {
        parament[p] := NUL;
      }
      forall p | 0 <= p < |argv[i]| {
        parament[i * PARA_LEN + p] := argv[i][p];
      }
      ptr[i] := Some(i * PARA_LEN);
      assert parament[..] == RowsMem(argv, i + 1);
      i := i + 1;
    }
    if i == PARA_NUM_MAX {
      status := OutOfBounds;
      RunStops(AsWritten, argv, input, 0);
      return;
    }
    ptr[i] := Some(i * PARA_LEN);
    Memset(parament, i);
    assert parament[..] == RowsMem(argv, argc);
    var j: nat := 0;
    var k := 0;
    while k < |input|
      invariant 0 <= k <= |input|
      invariant Run(AsWritten, argv, input[..k]) == State(parament[..], ptr[..], i, j, Running, execs)
    {
      RunNext(AsWritten, argv, input, k);
      status, i, j, execs := Feed(argv, parament, ptr, i, j, execs, input[k]);
      if status != Running {
        RunStops(AsWritten, argv, input, k + 1);
        return;
      }
      k := k + 1;
    }
    assert input[..k] == input;
    status := Running;
  }

  /** One iteration of main's byte loop, on the program's own arrays. */
  method Feed(argv: seq<string>, parament: array<char>, ptr: array<Option<nat>>, i: nat, j: nat,
              execs: seq<Exec>, c: char)
    returns (status: Status, i': nat, j': nat, execs': seq<Exec>)
    requires WellFormed(State(parament[..], ptr[..], i, j, Running, execs)) && |argv| < PARA_NUM_MAX
    modifies parament, ptr
    ensures var st' := Step(AsWritten, argv, State(old(parament[..]), old(ptr[..]), i, j, Running, execs), c);
      status == st'.status && execs' == st'.execs &&
      (status == Running ==> State(parament[..], ptr[..], i', j', Running, execs') == st')
  {
    ghost var st := State(parament[..], ptr[..], i, j, Running, execs);
    i', j', execs' := i, j, execs;
    if c == '\n' || c == ' ' {
      if i * PARA_LEN + j >= MEM {
        return OutOfBounds, i', j', execs';
      }
      parament[i * PARA_LEN + j] := NUL;
      ghost var m0 := parament[..];
      assert m0 == st.mem[st.i * PARA_LEN + st.j := NUL];
      i' := i + 1;
      if i' >= PARA_NUM_MAX {
        return OutOfBounds, i', j', execs';
      }
      Memset(parament, i');
      ptr[i'] := Some(i' * PARA_LEN);
      j' := 0;
      ghost var m1, p1 := parament[..], ptr[..];
      assert m1 == ClearRow(m0, i');
      assert p1 == st.ptr[i' := Some(i' * PARA_LEN)];
      if c == '\n' {
        var args := ArgsFrom(parament[..], ptr[..], 1);
        if args.None? {
          return OutOfBounds, i', j', execs';
        }
        execs' := execs + [Exec(Path(argv), args.value)];
        i' := |argv|;
        j' := 0;
      }
    } else {
      if j == PARA_LEN {
        return Overlip, i', j', execs';
      }
      parament[i * PARA_LEN + j] := c;
      j' := j + 1;
      assert parament[..] == st.mem[st.i * PARA_LEN + st.j := c];
    }
    status := Running;
  }

  /** How the argument checks end the program before any input is read. */
  lemma ArgumentExits(v: Variant, argv: seq<string>, input: seq<char>)
    ensures |argv| > PARA_NUM_MAX ==> Run(v, argv, input).status == TooMany
    ensures |argv| <= PARA_NUM_MAX && !ArgsFit(argv) ==> Run(v, argv, input).status == TooLong
    ensures |argv| == PARA_NUM_MAX && ArgsFit(argv) ==> Run(v, argv, input).status == OutOfBounds
    ensures |argv| < PARA_NUM_MAX && ArgsFit(argv) ==> Run(v, argv, []).status == Running
    ensures |argv| >= PARA_NUM_MAX || !ArgsFit(argv) ==> Run(v, argv, input).execs == []
  {
    if Setup(argv).status != Running {
      assert input[..0] == [];
      RunStops(v, argv, input, 0);
    }
  }

  lemma {:induction false} TailNotDispatched(v: Variant, argv: seq<string>, input: seq<char>, tail: seq<char>)
    requires '\n' !in tail
    ensures Run(v, argv, input + tail).execs == Run(v, argv, input).execs
    decreases |tail|
  {
    if tail != [] {
      var t' := tail[..|tail| - 1];
      assert (input + tail)[..|input + tail| - 1] == input + t';
      TailNotDispatched(v, argv, input, t');
    } else {
      assert input + tail == input;
    }
  }

  /**
   * As written, a newline leaves `ptr[i]` pointing at an empty row instead
   * of NULL: `echo a | xargs echo` runs `echo` with a trailing empty argument.
   */
  lemma EmptyArgumentAsWritten()
    ensures Run(AsWritten, ["xargs", "echo"], "a\n").execs == [Exec(Some("echo"), ["echo", "a", ""])]
  {
    var argv := ["xargs", "echo"];
    var s0 := Run(AsWritten, argv, []);
    assert s0.i == 2 && s0.j == 0 && s0.status == Running;
    var s1 := Run(AsWritten, argv, "a");
    assert "a"[..0] == [];
    assert s1 == Step(AsWritten, argv, s0, 'a');
    var s2 := Run(AsWritten, argv, "a\n");
    assert "a\n"[..1] == "a";
    assert s2 == Step(AsWritten, argv, s1, '\n');
    assert s1.mem[64] == 'a';
    var mem := ClearRow(s1.mem[65 := NUL], 3);
    var ptr := s1.ptr[3 := Some(96)];
    assert ptr[4].None? && ptr[3] == Some(96) && ptr[2] == Some(64) && ptr[1] == Some(32);
    assert ArgsFrom(mem, ptr, 4) == Some([]);
    assert CStr(mem, 96) == Some([]);
    assert [[]] + [] == [""];
    assert ArgsFrom(mem, ptr, 3) == Some([""]);
    assert mem[64] == 'a' && mem[65] == NUL;
    assert CStr(mem, 65) == Some([]);
    assert [mem[64]] + [] == "a";
    assert CStr(mem, 64) == Some("a");
    assert ["a"] + [""] == ["a", ""];
    assert ArgsFrom(mem, ptr, 2) == Some(["a", ""]);
    assert mem[32] == 'e' && mem[33] == 'c' && mem[34] == 'h' && mem[35] == 'o' && mem[36] == NUL;
    assert CStr(mem, 36) == Some([]);
    assert [mem[35]] + [] == "o";
    assert CStr(mem, 35) == Some("o");
    assert [mem[34]] + "o" == "ho";
    assert CStr(mem, 34) == Some("ho");
    assert [mem[33]] + "ho" == "cho";
    assert CStr(mem, 33) == Some("cho");
    assert [mem[32]] + "cho" == "echo";
    assert CStr(mem, 32) == Some("echo");
    assert ["echo"] + ["a", ""] == ["echo", "a", ""];
    assert ArgsFrom(mem, ptr, 1) == Some(["echo", "a", ""]);
  }

  /** The bytes after the last newline: the line being read. */
  function Pending(s: seq<char>): seq<char>
  {
    if s == [] then []
    else if s[|s| - 1] == '\n' then []
    else Pending(s[..|s| - 1]) + [s[|s| - 1]]
  }

  /** The complete lines of `s`, without their newlines. */
  function Lines(s: seq<char>): seq<seq<char>>
  {
    if s == [] then []
    else if s[|s| - 1] == '\n' then Lines(s[..|s| - 1]) + [Pending(s[..|s| - 1])]
    else Lines(s[..|s| - 1])
  }

  /** A line cut at every space: one more parameter than it has spaces. */
  function Words(s: seq<char>): (ws: seq<string>)
    ensures |ws| >= 1
  {
    if s == [] then [[]]
    else
      var ws := Words(s[..|s| - 1]);
      if s[|s| - 1] == ' ' then ws + [[]]
      else ws[..|ws| - 1] + [ws[|ws| - 1] + [s[|s| - 1]]]
  }

  /** What a correct xargs runs: one exec per complete line, with argv[1..] and the line's parameters. */
  function Intended(argv: seq<string>, input: seq<char>): seq<Exec>
    requires |argv| >= 1
  {
    seq(|Lines(input)|, k requires 0 <= k < |Lines(input)| => Exec(Path(argv), argv[1..] + Words(Lines(input)[k])))
  }

  /** Row `r` holds the C string `w`, and `ptr[r]` points at it. */
  ghost predicate RowHolds(st: State, r: nat, w: string)
  {
    |st.mem| == MEM && |st.ptr| == PARA_NUM_MAX && r < PARA_NUM_MAX &&
    st.ptr[r] == Some(r * PARA_LEN) && |w| < PARA_LEN && NUL !in w &&
    st.mem[r * PARA_LEN..r * PARA_LEN + |w|] == w && st.mem[r * PARA_LEN + |w|] == NUL
  }

  /** Rows base, base + 1, ... hold the strings `ws`. */
  ghost predicate RowsHold(st: State, base: nat, ws: seq<string>)
  {
    forall r :: 0 <= r < |ws| ==> RowHolds(st, base + r, ws[r])
  }

  /** Rows below `lim` and their pointers are the same in both states. */
  ghost predicate SameBelow(st: State, st': State, lim: nat)
  {
    lim <= PARA_NUM_MAX && |st.mem| == |st'.mem| == MEM && |st.ptr| == |st'.ptr| == PARA_NUM_MAX &&
    st'.mem[..lim * PARA_LEN] == st.mem[..lim * PARA_LEN] && st'.ptr[..lim] == st.ptr[..lim]
  }

  lemma RowsKeep(st: State, st': State, base: nat, ws: seq<string>, lim: nat)
    requires RowsHold(st, base, ws) && base + |ws| <= lim && SameBelow(st, st', lim)
    ensures RowsHold(st', base, ws)
  {
    forall r | 0 <= r < |ws| ensures RowHolds(st', base + r, ws[r]) {
      var q := base + r;
      assert RowHolds(st, q, ws[r]);
      assert st'.mem[q * PARA_LEN..q * PARA_LEN + |ws[r]|] == st'.mem[..lim * PARA_LEN][q * PARA_LEN..q * PARA_LEN + |ws[r]|];
      assert st.mem[q * PARA_LEN..q * PARA_LEN + |ws[r]|] == st.mem[..lim * PARA_LEN][q * PARA_LEN..q * PARA_LEN + |ws[r]|];
      assert st'.mem[q * PARA_LEN + |ws[r]|] == st'.mem[..lim * PARA_LEN][q * PARA_LEN + |ws[r]|];
      assert st'.ptr[q] == st'.ptr[..lim][q];
    }
  }

  /**
   * The rows of the corrected program while it reads a line whose
   * parameters so far are `ws`: the argument rows and the finished
   * parameters sit in consecutive rows, and the last parameter is being
   * written at row `i`.
   */
  ghost predicate Layout(argv: seq<string>, st: State, ws: seq<string>)
  {
    |ws| >= 1 && WellFormed(st) &&
    st.i == |argv| + |ws| - 1 && st.j == |ws[|ws| - 1]| < PARA_LEN && NUL !in ws[|ws| - 1] &&
    RowsHold(st, 0, argv) && RowsHold(st, |argv|, ws[..|ws| - 1]) &&
    st.ptr[st.i] == Some(st.i * PARA_LEN) &&
    st.mem[st.i * PARA_LEN..st.i * PARA_LEN + st.j] == ws[|ws| - 1]
  }

  /** The corrected program after reading `s`: its rows hold the pending line, and one exec has run per line. */
  ghost predicate LineInv(argv: seq<string>, st: State, s: seq<char>)
    requires |argv| >= 1
  {
    Layout(argv, st, Words(Pending(s))) && st.execs == Intended(argv, s)
  }

  lemma {:induction false} RowCStr(mem: seq<char>, off: nat, w: string)
    requires off + |w| < |mem| && mem[off..off + |w|] == w && mem[off + |w|] == NUL && NUL !in w
    ensures CStr(mem, off) == Some(w)
    decreases |w|
  {
    if w != [] {
      assert mem[off + 1..off + 1 + |w[1..]|] == w[1..];
      RowCStr(mem, off + 1, w[1..]);
      assert mem[off] == w[0];
      assert [w[0]] + w[1..] == w;
    }
  }

  /** `ptr[r]` points at row `r`, which reads as the C string `x`. */
  ghost predicate PtrRow(mem: seq<char>, ptr: seq<Option<nat>>, r: nat, x: string)
  {
    r < |ptr| && ptr[r] == Some(r * PARA_LEN) && CStr(mem, r * PARA_LEN) == Some(x)
  }

  /** exec reads consecutive rows up to a NULL pointer. */
  lemma {:induction false} ArgsCollect(mem: seq<char>, ptr: seq<Option<nat>>, k: nat, w: seq<string>)
    requires |ptr| == PARA_NUM_MAX && k + |w| < PARA_NUM_MAX && ptr[k + |w|] == None
    requires forall t :: 0 <= t < |w| ==> PtrRow(mem, ptr, k + t, w[t])
    ensures ArgsFrom(mem, ptr, k) == Some(w)
    decreases |w|
  {
    if w != [] {
      assert PtrRow(mem, ptr, k + 0, w[0]);
      forall t | 0 <= t < |w[1..]| ensures PtrRow(mem, ptr, k + 1 + t, w[1..][t]) {
        assert PtrRow(mem, ptr, k + (t + 1), w[t + 1]);
      }
      assert k + 1 + |w[1..]| == k + |w|;
      ArgsCollect(mem, ptr, k + 1, w[1..]);
      assert [w[0]] + w[1..] == w;
    }
  }

  /** Row `r` of the initial `parament` holds `argv[r]`. */
  lemma SetupRow(argv: seq<string>, r: nat)
    requires r < |argv| < PARA_NUM_MAX && ArgsFit(argv) && NUL !in argv[r]
    ensures RowHolds(Setup(argv), r, argv[r])
  {
    var st := Setup(argv);
    var w := argv[r];
    forall c | 0 <= c < |w| ensures st.mem[r * PARA_LEN..r * PARA_LEN + |w|][c] == w[c] {
      var p := r * PARA_LEN + c;
      assert p / PARA_LEN == r && p % PARA_LEN == c;
    }
    var p := r * PARA_LEN + |w|;
    assert p / PARA_LEN == r && p % PARA_LEN == |w|;
  }

  lemma SetupInv(argv: seq<string>)
    requires 1 <= |argv| < PARA_NUM_MAX && ArgsFit(argv) && forall r :: 0 <= r < |argv| ==> NUL !in argv[r]
    ensures Setup(argv).status == Running && LineInv(argv, Setup(argv), [])
  {
    forall r | 0 <= r < |argv| ensures RowHolds(Setup(argv), r, argv[r]) {
      SetupRow(argv, r);
    }
  }

  lemma AppendFacts(s: seq<char>, c: char)
    ensures c == '\n' ==> Pending(s + [c]) == [] && Lines(s + [c]) == Lines(s) + [Pending(s)]
    ensures c != '\n' ==> Pending(s + [c]) == Pending(s) + [c] && Lines(s + [c]) == Lines(s)
    ensures var ws := Words(Pending(s));
      Words(Pending(s) + [c]) == if c == ' ' then ws + [[]] else ws[..|ws| - 1] + [ws[|ws| - 1] + [c]]
  {
    assert (s + [c])[..|s|] == s;
    assert (Pending(s) + [c])[..|Pending(s)|] == Pending(s);
  }

  lemma IntendedNext(argv: seq<string>, s: seq<char>, c: char)
    requires |argv| >= 1
    ensures c == '\n' ==> Intended(argv, s + [c]) == Intended(argv, s) + [Exec(Path(argv), argv[1..] + Words(Pending(s)))]
    ensures c != '\n' ==> Intended(argv, s + [c]) == Intended(argv, s)
  {
    AppendFacts(s, c);
  }

  lemma StepChar(argv: seq<string>, st: State, c: char)
    requires st.status == Running && WellFormed(st) && |argv| < PARA_NUM_MAX
    requires c != ' ' && c != '\n'
    requires Step(Corrected, argv, st, c).status == Running
    ensures st.j < PARA_LEN - 1
    ensures Step(Corrected, argv, st, c) == st.(mem := st.mem[st.i * PARA_LEN + st.j := c], j := st.j + 1)
  {
  }

  lemma CharLayout(argv: seq<string>, st: State, ws: seq<string>, c: char)
    requires Layout(argv, st, ws) && st.j < PARA_LEN - 1 && c != NUL
    ensures Layout(argv, st.(mem := st.mem[st.i * PARA_LEN + st.j := c], j := st.j + 1),
                   ws[..|ws| - 1] + [ws[|ws| - 1] + [c]])
  {
    var st' := st.(mem := st.mem[st.i * PARA_LEN + st.j := c], j := st.j + 1);
    var ws' := ws[..|ws| - 1] + [ws[|ws| - 1] + [c]];
    assert ws'[..|ws'| - 1] == ws[..|ws| - 1];
    assert SameBelow(st, st', st.i);
    RowsKeep(st, st', 0, argv, st.i);
    RowsKeep(st, st', |argv|, ws[..|ws| - 1], st.i);
    assert st'.mem[st.i * PARA_LEN..st.i * PARA_LEN + st.j + 1] == st.mem[st.i * PARA_LEN..st.i * PARA_LEN + st.j] + [c];
  }

  /** An ordinary byte extends the current parameter in place. */
  lemma CharCase(argv: seq<string>, st: State, s: seq<char>, c: char)
    requires |argv| >= 1 && st.status == Running && LineInv(argv, st, s) && |argv| < PARA_NUM_MAX
    requires c != ' ' && c != '\n' && c != NUL
    requires Step(Corrected, argv, st, c).status == Running
    ensures LineInv(argv, Step(Corrected, argv, st, c), s + [c])
  {
    StepChar(argv, st, c);
    AppendFacts(s, c);
    IntendedNext(argv, s, c);
    CharLayout(argv, st, Words(Pending(s)), c);
  }

  /** The state after a space or newline has ended the parameter at row `i` and cleared row `i + 1`. */
  function Ended(st: State, p: Option<nat>): State
    requires WellFormed(st) && st.i * PARA_LEN + st.j < MEM && st.i + 1 < PARA_NUM_MAX
  {
    var i1 := st.i + 1;
    st.(mem := ClearRow(st.mem[st.i * PARA_LEN + st.j := NUL], i1), ptr := st.ptr[i1 := p], i := i1, j := 0)
  }

  lemma EndedRows(argv: seq<string>, st: State, ws: seq<string>, p: Option<nat>)
    requires Layout(argv, st, ws) && st.i + 1 < PARA_NUM_MAX
    ensures st.i * PARA_LEN + st.j < MEM
    ensures RowsHold(Ended(st, p), 0, argv) && RowsHold(Ended(st, p), |argv|, ws)
    ensures Ended(st, p).mem[Ended(st, p).i * PARA_LEN] == NUL
  {
    var st1 := Ended(st, p);
    assert SameBelow(st, st1, st.i);
    RowsKeep(st, st1, 0, argv, st.i);
    RowsKeep(st, st1, |argv|, ws[..|ws| - 1], st.i);
    var cur := ws[|ws| - 1];
    assert st1.mem[st.i * PARA_LEN..st.i * PARA_LEN + |cur|] == st.mem[st.i * PARA_LEN..st.i * PARA_LEN + |cur|];
    assert RowHolds(st1, st.i, cur);
    forall r | 0 <= r < |ws| ensures RowHolds(st1, |argv| + r, ws[r]) {
      if r < |ws| - 1 {
        assert RowHolds(st1, |argv| + r, ws[..|ws| - 1][r]);
      }
    }
  }

  lemma StepSpace(argv: seq<string>, st: State)
    requires st.status == Running && WellFormed(st) && |argv| < PARA_NUM_MAX
    requires Step(Corrected, argv, st, ' ').status == Running
    ensures st.i * PARA_LEN + st.j < MEM && st.i + 1 < PARA_NUM_MAX
    ensures Step(Corrected, argv, st, ' ') == Ended(st, Some((st.i + 1) * PARA_LEN))
  {
  }

  lemma StepNewline(argv: seq<string>, st: State)
    requires st.status == Running && WellFormed(st) && |argv| < PARA_NUM_MAX
    requires Step(Corrected, argv, st, '\n').status == Running
    ensures st.i * PARA_LEN + st.j < MEM && st.i + 1 < PARA_NUM_MAX
    ensures var st1 := Ended(st, None);
      ArgsFrom(st1.mem, st1.ptr, 1).Some? &&
      Step(Corrected, argv, st, '\n') ==
        st1.(i := |argv|, execs := st.execs + [Exec(Path(argv), ArgsFrom(st1.mem, st1.ptr, 1).value)])
  {
  }

  /** A space ends the current parameter and starts an empty one in the next row. */
  lemma SpaceCase(argv: seq<string>, st: State, s: seq<char>)
    requires |argv| >= 1 && st.status == Running && LineInv(argv, st, s) && |argv| < PARA_NUM_MAX
    requires Step(Corrected, argv, st, ' ').status == Running
    ensures LineInv(argv, Step(Corrected, argv, st, ' '), s + [' '])
  {
    StepSpace(argv, st);
    AppendFacts(s, ' ');
    IntendedNext(argv, s, ' ');
    SpaceLayout(argv, st, Words(Pending(s)));
  }

  lemma SpaceLayout(argv: seq<string>, st: State, ws: seq<string>)
    requires Layout(argv, st, ws) && st.i + 1 < PARA_NUM_MAX
    ensures st.i * PARA_LEN + st.j < MEM
    ensures Layout(argv, Ended(st, Some((st.i + 1) * PARA_LEN)), ws + [[]])
  {
    EndedRows(argv, st, ws, Some((st.i + 1) * PARA_LEN));
    var ws' := ws + [[]];
    assert ws'[..|ws'| - 1] == ws;
  }

  lemma RowPtr(st: State, r: nat, w: string)
    requires RowHolds(st, r, w)
    ensures PtrRow(st.mem, st.ptr, r, w)
  {
    RowCStr(st.mem, r * PARA_LEN, w);
  }

  /** Rows 1 .. of `argv` followed by the rows of `ws` are what exec collects from row 1 up to the NULL pointer. */
  lemma ArgsOfRows(st: State, argv: seq<string>, ws: seq<string>)
    requires |argv| >= 1 && |st.ptr| == PARA_NUM_MAX && |argv| + |ws| < PARA_NUM_MAX
    requires RowsHold(st, 0, argv) && RowsHold(st, |argv|, ws) && st.ptr[|argv| + |ws|] == None
    ensures ArgsFrom(st.mem, st.ptr, 1) == Some(argv[1..] + ws)
  {
    var w := argv[1..] + ws;
    forall t | 0 <= t < |w| ensures PtrRow(st.mem, st.ptr, 1 + t, w[t]) {
      if t < |argv| - 1 {
        assert RowHolds(st, 0 + (1 + t), argv[1 + t]);
        RowPtr(st, 1 + t, argv[1 + t]);
      } else {
        var r := t - (|argv| - 1);
        assert RowHolds(st, |argv| + r, ws[r]);
        RowPtr(st, |argv| + r, ws[r]);
      }
    }
    ArgsCollect(st.mem, st.ptr, 1, w);
  }

  lemma NewlineLayout(argv: seq<string>, st: State, ws: seq<string>)
    requires |argv| >= 1 && Layout(argv, st, ws) && st.i + 1 < PARA_NUM_MAX
    ensures st.i * PARA_LEN + st.j < MEM
    ensures var st1 := Ended(st, None);
      ArgsFrom(st1.mem, st1.ptr, 1) == Some(argv[1..] + ws) &&
      Layout(argv, st1.(i := |argv|), [[]])
  {
    var st1 := Ended(st, None);
    EndedRows(argv, st, ws, None);
    ArgsOfRows(st1, argv, ws);
    var st2 := st1.(i := |argv|);
    assert RowsHold(st2, 0, argv);
    if |ws| == 1 {
      assert st2.ptr[|argv|] == st.ptr[st.i];
    } else {
      assert RowHolds(st1, |argv| + 0, ws[0]);
    }
  }

  /** A newline ends the line: exec gets argv[1..] and the line's parameters, and the next line starts at row argc. */
  lemma NewlineCase(argv: seq<string>, st: State, s: seq<char>)
    requires |argv| >= 1 && st.status == Running && LineInv(argv, st, s) && |argv| < PARA_NUM_MAX
    requires Step(Corrected, argv, st, '\n').status == Running
    ensures LineInv(argv, Step(Corrected, argv, st, '\n'), s + ['\n'])
  {
    StepNewline(argv, st);
    AppendFacts(s, '\n');
    IntendedNext(argv, s, '\n');
    NewlineLayout(argv, st, Words(Pending(s)));
  }

  lemma {:induction false} CorrectedInv(argv: seq<string>, input: seq<char>)
    requires |argv| >= 1 && (forall r :: 0 <= r < |argv| ==> NUL !in argv[r]) && NUL !in input
    ensures Run(Corrected, argv, input).status == Running ==> LineInv(argv, Run(Corrected, argv, input), input)
  {
    if input == [] {
      if Setup(argv).status == Running {
        SetupInv(argv);
      }
    } else {
      var s := input[..|input| - 1];
      var c := input[|input| - 1];
      assert input == s + [c];
      CorrectedInv(argv, s);
      var st := Run(Corrected, argv, s);
      if st.status == Running && Step(Corrected, argv, st, c).status == Running {
        if c == '\n' {
          NewlineCase(argv, st, s);
        } else if c == ' ' {
          SpaceCase(argv, st, s);
        } else {
          CharCase(argv, st, s, c);
        }
      }
    }
  }

  /**
   * Corrected, the program runs one exec per complete line, with argv[1..]
   * followed by that line's space-separated parameters, whenever it has not
   * exited.
   */
  lemma CorrectedExecs(argv: seq<string>, input: seq<char>)
    requires |argv| >= 1 && (forall r :: 0 <= r < |argv| ==> NUL !in argv[r]) && NUL !in input
    ensures Run(Corrected, argv, input).status == Running ==> Run(Corrected, argv, input).execs == Intended(argv, input)
  {
    CorrectedInv(argv, input);
  }

  /** `k` copies of the byte 'a'. */
  function As(k: nat): (r: seq<char>)
    ensures |r| == k && forall t :: 0 <= t < k ==> r[t] == 'a'
  {
    seq(k, _ => 'a')
  }

  /** `parament` of `xargs echo` once `k` bytes 'a' have been read into row 2. */
  function FilledMem(k: nat): (m: seq<char>)
    ensures |m| == MEM
  {
    var m0 := Setup(["xargs", "echo"]).mem;
    seq(MEM, p requires 0 <= p < MEM => if 64 <= p < 64 + k then 'a' else m0[p])
  }

  lemma {:induction false} FillRow(v: Variant, k: nat)
    requires k <= Limit(v)
    ensures var st0 := Setup(["xargs", "echo"]);
      Run(v, ["xargs", "echo"], As(k)) == st0.(mem := FilledMem(k), j := k)
  {
    var argv := ["xargs", "echo"];
    var st0 := Setup(argv);
    if k == 0 {
      assert FilledMem(0) == st0.mem;
    } else {
      FillRow(v, k - 1);
      assert As(k)[..k - 1] == As(k - 1);
      assert FilledMem(k) == FilledMem(k - 1)[64 + k - 1 := 'a'];
    }
  }

  /** `parament` of `xargs echo` after the bytes 32 x 'a', ' ', 'b'. */
  function LongMem(): (m: seq<char>)
    ensures |m| == MEM
  {
    ClearRow(FilledMem(32)[96 := NUL], 3)[96 := 'b']
  }

  lemma LongLineState()
    ensures var st0 := Setup(["xargs", "echo"]);
      Run(AsWritten, ["xargs", "echo"], As(32) + " b") ==
        st0.(mem := LongMem(), ptr := st0.ptr[3 := Some(96)], i := 3, j := 1)
  {
    var argv := ["xargs", "echo"];
    FillRow(AsWritten, 32);
    assert (As(32) + " ")[..32] == As(32) && (As(32) + " b")[..33] == As(32) + " ";
  }

  /** The strings the rows of the long-line memory hold once the line's end is written. */
  lemma LongLineRows()
    ensures var mem := ClearRow(LongMem()[97 := NUL], 4);
      CStr(mem, 32) == Some("echo") && CStr(mem, 64) == Some(As(32) + "b") &&
      CStr(mem, 96) == Some("b") && CStr(mem, 128) == Some("")
  {
    var mem := ClearRow(LongMem()[97 := NUL], 4);
    assert mem[128] == NUL && mem[97] == NUL && mem[96] == 'b';
    assert forall p :: 64 <= p < 96 ==> mem[p] == 'a';
    assert mem[32] == 'e' && mem[33] == 'c' && mem[34] == 'h' && mem[35] == 'o' && mem[36] == NUL;
    RowCStr(mem, 128, "");
    RowCStr(mem, 96, "b");
    assert mem[64..97] == As(32) + "b";
    RowCStr(mem, 64, As(32) + "b");
    assert mem[32..36] == "echo";
    RowCStr(mem, 32, "echo");
  }

  lemma LongLineArgs()
    ensures var st0 := Setup(["xargs", "echo"]);
      ArgsFrom(ClearRow(LongMem()[97 := NUL], 4), st0.ptr[3 := Some(96)][4 := Some(128)], 1) ==
        Some(["echo", As(32) + "b", "b", ""])
  {
    var mem := ClearRow(LongMem()[97 := NUL], 4);
    var ptr := Setup(["xargs", "echo"]).ptr[3 := Some(96)][4 := Some(128)];
    assert ptr[5].None? && ptr[4] == Some(128) && ptr[3] == Some(96) && ptr[2] == Some(64) && ptr[1] == Some(32);
    LongLineRows();
    assert PtrRow(mem, ptr, 1 + 0, "echo") && PtrRow(mem, ptr, 1 + 1, As(32) + "b");
    assert PtrRow(mem, ptr, 1 + 2, "b") && PtrRow(mem, ptr, 1 + 3, "");
    ArgsCollect(mem, ptr, 1, ["echo", As(32) + "b", "b", ""]);
  }

  /**
   * As written, the overlip check lets a parameter reach PARA_LEN bytes, so
   * its terminator lands in the first byte of the next row: for
   * `xargs echo` and the line of 32 bytes 'a' followed by " b", the first
   * parameter reads on into the second one. Corrected, the 32nd byte exits
   * with "overlip!".
   */
  lemma LongParameterAsWritten()
    ensures Run(AsWritten, ["xargs", "echo"], As(32) + " b\n").execs ==
      [Exec(Some("echo"), ["echo", As(32) + "b", "b", ""])]
    ensures Run(Corrected, ["xargs", "echo"], As(32) + " b\n").status == Overlip
  {
    var argv := ["xargs", "echo"];
    var input := As(32) + " b\n";
    LongLineState();
    LongLineArgs();
    assert input[..34] == As(32) + " b";
    assert input[..35] == input;
    FillRow(Corrected, 31);
    assert input[..32][..31] == As(31);
    RunStops(Corrected, argv, input, 32);
  }
}
