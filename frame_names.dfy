/** File names of an export: `frame`, the frame index in decimal left-padded
    with '0' to at least six characters, then `.png`, inside the export
    directory. Also the plan of which frames an export writes, and where. */
module FrameNames {
  import opened Capture

  predicate IsDigit(c: char) { '0' <= c <= '9' }

  predicate AllDigits(s: string)
  {
    forall i :: 0 <= i < |s| ==> IsDigit(s[i])
  }

  function DigitChar(v: int): char
    requires 0 <= v < 10
  {
    (48 + v) as char
  }

  /** The number a string of decimal digits denotes; leading zeros allowed. */
  function DigitsValue(s: string): nat
    requires AllDigits(s)
    decreases |s|
  {
    if s == [] then 0
    else DigitsValue(s[..|s| - 1]) * 10 + (s[|s| - 1] as int - 48)
  }

  /** The decimal text of a non-negative number, as QString::number gives
      it: at least one digit, no leading zero, and it reads back as `n`. */
  function Digits(n: nat): (s: string)
    ensures |s| >= 1 && AllDigits(s)
    ensures DigitsValue(s) == n
    ensures |s| > 1 ==> s[0] != '0'
    decreases n
  {
    if n < 10 then [DigitChar(n)]
    else
      var prefix := Digits(n / 10);
      var s := prefix + [DigitChar(n % 10)];
      assert s[..|s| - 1] == prefix;
      s
  }

  function Zeros(k: nat): (z: string)
  {
    seq(k, _ => '0')
  }

  lemma {:induction false} ZerosValue(k: nat)
    ensures AllDigits(Zeros(k)) && DigitsValue(Zeros(k)) == 0
  {
    if k > 0 {
      assert Zeros(k)[..k - 1] == Zeros(k - 1);
      ZerosValue(k - 1);
    }
  }

  /** Leading zeros do not change the number a digit string denotes. */
  lemma {:induction false} LeadingZerosIgnored(k: nat, s: string)
    requires AllDigits(s)
    ensures AllDigits(Zeros(k) + s)
    ensures DigitsValue(Zeros(k) + s) == DigitsValue(s)
  {
    var t := Zeros(k) + s;
    if s == [] {
      assert t == Zeros(k);
      ZerosValue(k);
    } else {
      assert t[..|t| - 1] == Zeros(k) + s[..|s| - 1];
      LeadingZerosIgnored(k, s[..|s| - 1]);
    }
  }

  /** The padded index used in a file name: the decimal digits of `n`
      preceded by as many '0' as bring it to six characters. */
  function PadSix(n: nat): string
  {
    var s := Digits(n);
    if |s| >= 6 then s else Zeros(6 - |s|) + s
  }

  /** The padded index is exactly the digits of `n` preceded by '0's (none
      when it already has six or more), at least six characters long, and
      it still reads back as `n`. */
  lemma PadSixShape(n: nat)
    ensures var p := PadSix(n);
      |p| == (if |Digits(n)| >= 6 then |Digits(n)| else 6) &&
      p[|p| - |Digits(n)|..] == Digits(n) &&
      (forall i :: 0 <= i < |p| - |Digits(n)| ==> p[i] == '0') &&
      AllDigits(p) && DigitsValue(p) == n
  {
    var s, p := Digits(n), PadSix(n);
    if |s| >= 6 {
      assert p[|p| - |s|..] == p;
    } else {
      var z := Zeros(6 - |s|);
      assert p == z + s;
      assert p[|z|..] == s;
      forall i | 0 <= i < |z| ensures p[i] == '0' {
        assert p[i] == z[i];
      }
      LeadingZerosIgnored(6 - |s|, s);
    }
  }

  /** The padding loop of the export: start from the decimal text of the
      index and prepend '0' while it is shorter than six characters. */
  method PadIndex(idx: nat) returns (zeros: string)
    ensures zeros == PadSix(idx)
    ensures |zeros| >= 6 && AllDigits(zeros) && DigitsValue(zeros) == idx
  {
    zeros := Digits(idx);
    ghost var digits := zeros;
    ghost var added: nat := 0;
    while |zeros| < 6
      invariant zeros == Zeros(added) + digits
      invariant |digits| >= 6 ==> added == 0
      invariant |digits| < 6 ==> |digits| + added <= 6
      decreases 6 - |zeros|
    {
      ZerosCons(added, digits);
      zeros := ['0'] + zeros;
      added := added + 1;
    }
    if |digits| >= 6 {
      assert Zeros(0) + digits == digits;
    } else {
      assert added == 6 - |digits|;
    }
    PadSixShape(idx);
  }

  lemma ZerosCons(k: nat, s: string)
    ensures ['0'] + (Zeros(k) + s) == Zeros(k + 1) + s
  {
    assert ['0'] + Zeros(k) == Zeros(k + 1);
  }

  /** The export directory with exactly one '/' added when it does not
      already end in one. */
  function DirPrefix(path: string): (d: string)
    ensures |d| >= 1 && d[|d| - 1] == '/'
    ensures d == path || d == path + "/"
    ensures |path| > 0 && path[|path| - 1] == '/' ==> d == path
  {
    if |path| > 0 && path[|path| - 1] == '/' then path else path + "/"
  }

  /** The path of the file frame `idx` is written to: inside the export
      directory, `frame`, the padded index, then `.png`. */
  function FrameFileName(path: string, idx: nat): (name: string)
    ensures |name| >= |DirPrefix(path)| + 15
    ensures name[..|DirPrefix(path)|] == DirPrefix(path)
    ensures name[|name| - 4..] == ".png"
  {
    DirPrefix(path) + "frame" + PadSix(idx) + ".png"
  }

  /** Distinct indices get distinct file names, so no frame of one export
      overwrites another frame of the same export. */
  lemma FrameFileNameInjective(path: string, i: nat, j: nat)
    ensures FrameFileName(path, i) == FrameFileName(path, j) <==> i == j
  {
    if FrameFileName(path, i) == FrameFileName(path, j) {
      var d := DirPrefix(path) + "frame";
      var pi, pj := PadSix(i), PadSix(j);
      var name := FrameFileName(path, i);
      PadSixShape(i);
      PadSixShape(j);
      assert |pi| == |pj|;
      assert name == d + pi + ".png" == d + pj + ".png";
      assert name[|d|..|d| + |pi|] == pi;
      assert name[|d|..|d| + |pj|] == pj;
    }
  }

  /** The example of the export format: index 2 in the default directory. */
  lemma FrameFileNameExample()
    ensures FrameFileName("./export", 2) == "./export/frame000002.png"
  {
    PadSixOfTwo();
    assert DirPrefix("./export") == "./export/";
  }

  lemma PadSixOfTwo()
    ensures PadSix(2) == "000002"
  {
    assert Digits(2) == "2";
    assert Zeros(5) == "00000";
  }

  /** A file written by an export: its path and the frame stored in it. */
  datatype SavedFile = SavedFile(name: string, frame: Image)

  /** One past the last index an export reaches: the loop stops after the
      last-frame slider value or at the end of the frame list. */
  function ExportEnd(last: nat, count: nat): (e: nat)
    ensures e <= count && e <= last + 1
    ensures e == count || e == last + 1
  {
    if last + 1 <= count then last + 1 else count
  }

  /** The files written for indices lo .. hi - 1, in increasing order,
      frame `i` under the name `name(i)`. */
  function PlanWith(name: nat -> string, frames: seq<Image>, lo: nat, hi: nat): seq<SavedFile>
    requires hi <= |frames|
    decreases hi - lo
  {
    if lo >= hi then [] else [SavedFile(name(lo), frames[lo])] + PlanWith(name, frames, lo + 1, hi)
  }

  lemma {:induction false} PlanWithLength(name: nat -> string, frames: seq<Image>, lo: nat, hi: nat)
    requires hi <= |frames|
    ensures |PlanWith(name, frames, lo, hi)| == (if lo < hi then hi - lo else 0)
    decreases hi - lo
  {
    if lo < hi {
      PlanWithLength(name, frames, lo + 1, hi);
    }
  }

  lemma {:induction false} PlanWithAt(name: nat -> string, frames: seq<Image>, lo: nat, hi: nat, k: nat)
    requires hi <= |frames| && lo + k < hi
    ensures |PlanWith(name, frames, lo, hi)| == hi - lo
    ensures PlanWith(name, frames, lo, hi)[k] == SavedFile(name(lo + k), frames[lo + k])
    decreases k
  {
    PlanWithLength(name, frames, lo, hi);
    if k > 0 {
      PlanWithAt(name, frames, lo + 1, hi, k - 1);
    }
  }

  /** A plan whose names differ for distinct indices never reuses a name. */
  lemma PlanWithDistinct(name: nat -> string, frames: seq<Image>, lo: nat, hi: nat)
    requires hi <= |frames|
    requires forall i, j :: lo <= i < j < hi ==> name(i) != name(j)
    ensures forall a, b :: 0 <= a < b < |PlanWith(name, frames, lo, hi)| ==>
      PlanWith(name, frames, lo, hi)[a].name != PlanWith(name, frames, lo, hi)[b].name
  {
    PlanWithLength(name, frames, lo, hi);
    forall a, b | 0 <= a < b < |PlanWith(name, frames, lo, hi)|
      ensures PlanWith(name, frames, lo, hi)[a].name != PlanWith(name, frames, lo, hi)[b].name
    {
      PlanWithAt(name, frames, lo, hi, a);
      PlanWithAt(name, frames, lo, hi, b);
    }
  }

  /** The export's naming of frame files in directory `path`. */
  function FrameNamer(path: string): nat -> string
  {
    (i: nat) => FrameFileName(path, i)
  }

  /** The files an export writes for indices lo .. hi - 1, in increasing order. */
  function Planned(path: string, frames: seq<Image>, lo: nat, hi: nat): seq<SavedFile>
    requires hi <= |frames|
  {
    PlanWith(FrameNamer(path), frames, lo, hi)
  }

  lemma PlannedLength(path: string, frames: seq<Image>, lo: nat, hi: nat)
    requires hi <= |frames|
    ensures |Planned(path, frames, lo, hi)| == (if lo < hi then hi - lo else 0)
  {
    PlanWithLength(FrameNamer(path), frames, lo, hi);
  }

  /** One entry of the plan: the file for index lo + k. */
  lemma PlannedAt(path: string, frames: seq<Image>, lo: nat, hi: nat, k: nat)
    requires hi <= |frames| && lo + k < hi
    ensures |Planned(path, frames, lo, hi)| == hi - lo
    ensures Planned(path, frames, lo, hi)[k] == SavedFile(FrameFileName(path, lo + k), frames[lo + k])
  {
    PlanWithAt(FrameNamer(path), frames, lo, hi, k);
  }

  function Names(files: seq<SavedFile>): set<string>
  {
    set k | 0 <= k < |files| :: files[k].name
  }

  /** The plan covers exactly the indices lo .. hi - 1, each once, in order,
      each frame under its own file name. */
  lemma PlannedIsContiguous(path: string, frames: seq<Image>, lo: nat, hi: nat)
    requires hi <= |frames|
    ensures |Planned(path, frames, lo, hi)| == (if lo < hi then hi - lo else 0)
    ensures forall k :: 0 <= k < |Planned(path, frames, lo, hi)| ==>
      Planned(path, frames, lo, hi)[k] == SavedFile(FrameFileName(path, lo + k), frames[lo + k])
  {
    PlannedLength(path, frames, lo, hi);
    forall k | 0 <= k < |Planned(path, frames, lo, hi)|
      ensures Planned(path, frames, lo, hi)[k] == SavedFile(FrameFileName(path, lo + k), frames[lo + k])
    {
      PlannedAt(path, frames, lo, hi, k);
    }
  }

  /** No two files of a plan share a name, so an export never writes one
      of its own frames over another. */
  lemma PlannedNamesDistinct(path: string, frames: seq<Image>, lo: nat, hi: nat)
    requires hi <= |frames|
    ensures forall a, b :: 0 <= a < b < |Planned(path, frames, lo, hi)| ==>
      Planned(path, frames, lo, hi)[a].name != Planned(path, frames, lo, hi)[b].name
  {
    var name := FrameNamer(path);
    forall i, j | lo <= i < j < hi
      ensures name(i) != name(j)
    {
      FrameFileNameInjective(path, i, j);
    }
    PlanWithDistinct(name, frames, lo, hi);
  }

  /** Export progress: the first `n` files of `plan` are written, in order,
      and the directory holds what it held before plus their names. */
  ghost predicate Written(existing: set<string>, plan: seq<SavedFile>, n: nat,
                          written: seq<SavedFile>, dir: set<string>)
  {
    n <= |plan| && written == plan[..n] && dir == existing + Names(written)
  }

  lemma WrittenStart(existing: set<string>, plan: seq<SavedFile>)
    ensures Written(existing, plan, 0, [], existing)
  {
    assert Names([]) == {};
  }

  /** Writing the next planned file extends the progress by one. */
  lemma WrittenStep(existing: set<string>, plan: seq<SavedFile>, n: nat,
                    written: seq<SavedFile>, dir: set<string>)
    requires Written(existing, plan, n, written, dir) && n < |plan|
    ensures Written(existing, plan, n + 1, written + [plan[n]], dir + {plan[n].name})
  {
    assert plan[..n + 1] == plan[..n] + [plan[n]];
    NamesExtend(written, plan[n]);
  }

  lemma WrittenFacts(existing: set<string>, plan: seq<SavedFile>, n: nat,
                     written: seq<SavedFile>, dir: set<string>)
    requires Written(existing, plan, n, written, dir)
    ensures |written| == n
    ensures n == 0 ==> written == [] && dir == existing
    ensures n == |plan| ==> written == plan && dir == existing + Names(plan)
  {
    assert Names([]) == {};
    assert plan[..|plan|] == plan;
  }

  lemma NamesExtend(files: seq<SavedFile>, f: SavedFile)
    ensures Names(files + [f]) == Names(files) + {f.name}
  {
    var all := files + [f];
    assert all[|files|] == f;
    forall n | n in Names(files) ensures n in Names(all)
    {
      var k :| 0 <= k < |files| && files[k].name == n;
      assert all[k] == files[k];
    }
  }
}
