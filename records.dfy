/**
 * `q2::record`: a map from attribute names to values, both strings, with a
 * text form of one `key=value` line per attribute between `{` and `}` lines,
 * in which `!` and `=` inside keys and values are escaped with `!`.
 */
module Records {
  import opened Wrappers
  import opened Ordered

  /** `values_`: the attributes in ascending key order. */
  type Attrs = seq<Entry<string, string>>

  ghost predicate WellKeyed(a: Attrs) {
    Ascending(StringLess, Keys(a))
  }

  /** The attributes of a record as a value: keys strictly ascending. */
  type RecordValue = a: Attrs | WellKeyed(a) witness []

  /** `get_value`: the value stored under `key`, or the empty string. */
  function GetValue(a: Attrs, key: string): (v: string)
    requires WellKeyed(a)
    ensures key in Keys(a) ==> Entry(key, v) in a
    ensures key !in Keys(a) ==> v == ""
  {
    StringOrder();
    match Lookup(StringLess, a, key)
    case Some(v) => v
    case None => ""
  }

  /** `has_attribute`: whether `key` is stored. */
  function HasAttribute(a: Attrs, key: string): (b: bool)
    requires WellKeyed(a)
    ensures b <==> key in Keys(a)
  {
    StringOrder();
    Lookup(StringLess, a, key).Some?
  }

  /** A stored attribute is exactly what `has_attribute` and `get_value`
      report: `key` holds `val` iff the entry is in the map. */
  lemma StoredEntry(a: Attrs, key: string, val: string)
    requires WellKeyed(a)
    ensures Entry(key, val) in a <==> HasAttribute(a, key) && GetValue(a, key) == val
  {
    StringOrder();
    if Entry(key, val) in a {
      var i :| 0 <= i < |a| && a[i] == Entry(key, val);
      assert Keys(a)[i] == key;
      assert Lookup(StringLess, a, key) == Some(val);
    }
  }

  /** `count`: the number of attributes, that is, of distinct keys. */
  function Count(a: Attrs): (n: nat)
    requires WellKeyed(a)
    ensures n == |set k | k in Keys(a)|
  {
    StringOrder();
    DistinctCount(Keys(a));
    |a|
  }

  /** An ascending sequence holds as many distinct elements as it is long. */
  lemma {:induction false} DistinctCount(s: seq<string>)
    requires StrictTotalOrder(StringLess) && Ascending(StringLess, s)
    ensures |set x | x in s| == |s|
  {
    if s != [] {
      DistinctCount(s[1..]);
      var rest := set x | x in s[1..];
      assert s[0] !in rest by {
        forall j | 0 <= j < |s[1..]| ensures s[1..][j] != s[0] {
          assert StringLess(s[0], s[j + 1]);
        }
      }
      assert (set x | x in s) == rest + {s[0]};
    }
  }

  /** An attribute set holding only `key`'s entry changed: `get_value` and
      `has_attribute` answer as before for every other key. */
  ghost predicate OthersUnchanged(a: Attrs, b: Attrs, key: string)
    requires WellKeyed(a) && WellKeyed(b)
  {
    forall k :: k != key ==> HasAttribute(b, k) == HasAttribute(a, k) && GetValue(b, k) == GetValue(a, k)
  }

  /** The attributes after `values_[key] = val`: `key` holds `val`, every
      other key is as before, and the count grows when `key` is new. */
  function Assign(a: Attrs, key: string, val: string): (r: Attrs)
    requires WellKeyed(a)
    ensures WellKeyed(r)
    ensures GetValue(r, key) == val && HasAttribute(r, key)
    ensures OthersUnchanged(a, r, key)
    ensures Count(r) == Count(a) + (if HasAttribute(a, key) then 0 else 1)
  {
    StringOrder();
    Put(StringLess, a, key, val)
  }

  /** The attributes after `values_.erase(key)`: `key` is gone, every other
      key is as before, and the count drops when `key` was there. */
  function Erased(a: Attrs, key: string): (r: Attrs)
    requires WellKeyed(a)
    ensures WellKeyed(r)
    ensures !HasAttribute(r, key) && GetValue(r, key) == ""
    ensures OthersUnchanged(a, r, key)
    ensures Count(r) == Count(a) - (if HasAttribute(a, key) then 1 else 0)
  {
    StringOrder();
    EraseKey(StringLess, a, key)
  }

  class Record {
    var values: Attrs

    ghost predicate Valid()
      reads this
    {
      WellKeyed(values)
    }

    /** `record()`: no attributes. */
    constructor ()
      ensures Valid() && values == []
    {
      values := [];
    }

    /** `set_value`: `values_[key] = val`. */
    method SetValue(key: string, val: string)
      requires Valid()
      modifies this
      ensures Valid() && values == Assign(old(values), key, val)
    {
      values := Assign(values, key, val);
    }

    /** `delete_attribute`: erases `key` and reports whether it was there. */
    method DeleteAttribute(key: string) returns (r: bool)
      requires Valid()
      modifies this
      ensures Valid() && values == Erased(old(values), key)
      ensures r <==> HasAttribute(old(values), key)
    {
      if HasAttribute(values, key) {
        values := Erased(values, key);
        return true;
      }
      return false;
    }

    /** `operator>>`: reads lines until one that is `}`, skipping lines that
        are `{` and setting one attribute from each other line. Returns how
        many lines it consumed. */
    method Read(lines: seq<string>) returns (consumed: nat)
      requires Valid() && Fits(lines)
      modifies this
      ensures Valid() && consumed <= |lines|
      ensures values == ReadLines(old(values), lines)
      ensures consumed == |lines| || (0 < consumed && lines[consumed - 1] == "}")
      ensures forall i :: 0 <= i < consumed - 1 ==> lines[i] != "}"
    {
      consumed := 0;
      while consumed < |lines|
        invariant consumed <= |lines| && Valid()
        invariant forall i :: 0 <= i < consumed ==> lines[i] != "}"
        invariant ReadLines(values, lines[consumed..]) == ReadLines(old(values), lines)
        decreases |lines| - consumed
      {
        var s := lines[consumed];
        consumed := consumed + 1;
        assert lines[consumed - 1..][1..] == lines[consumed..];
        if s == "{" {
          continue;
        }
        if s == "}" {
          return;
        }
        var key, val := SplitLine(s);
        SetValue(key, val);
      }
    }
  }

  /** What reading `lines` into a record holding `a` leaves in it. */
  ghost function ReadLines(a: Attrs, lines: seq<string>): (r: Attrs)
    requires WellKeyed(a) && Fits(lines)
    ensures WellKeyed(r)
    decreases |lines|
  {
    StringOrder();
    if lines == [] || lines[0] == "}" then a
    else if lines[0] == "{" then ReadLines(a, lines[1..])
    else
      var (k, v) := ParseLine(lines[0]);
      ReadLines(Assign(a, k, v), lines[1..])
  }

  // ---------------------------------------------------------------------
  // string_replace

  /** `s` holds `t` at index `i`, compared character by character. */
  predicate At(s: string, t: string, i: nat)
    decreases |t|
  {
    i + |t| <= |s| && (t == [] || (s[i] == t[0] && At(s, t[1..], i + 1)))
  }

  /** Whether `t` occurs at an index of `b` does not depend on what precedes `b`. */
  lemma {:induction false} AtShift(a: string, b: string, t: string, j: nat)
    ensures At(a + b, t, |a| + j) <==> At(b, t, j)
    decreases |t|
  {
    if t != [] && j + |t| <= |b| {
      AtShift(a, b, t[1..], j + 1);
    }
  }

  /** `s.find(t, pos)`: the first index from `pos` on where `t` occurs, or
      `None` for `npos`. */
  function Find(s: string, t: string, pos: nat): (r: Option<nat>)
    ensures r.Some? ==> pos <= r.value && At(s, t, r.value)
    ensures forall j :: pos <= j && (r.None? || j < r.value) ==> !At(s, t, j)
    decreases |s| - pos
  {
    if pos + |t| > |s| then None
    else if At(s, t, pos) then Some(pos)
    else Find(s, t, pos + 1)
  }

  function Shift(r: Option<nat>, n: nat): Option<nat> {
    if r.None? then None else Some(r.value + n)
  }

  /** Searching `a + b` from the start of `b` is searching `b`. */
  lemma {:induction false} FindShift(a: string, b: string, t: string, j: nat)
    ensures Find(a + b, t, |a| + j) == Shift(Find(b, t, j), |a|)
    decreases |b| - j
  {
    if j + |t| <= |b| {
      AtShift(a, b, t, j);
      if !At(b, t, j) {
        FindShift(a, b, t, j + 1);
      }
    }
  }

  /** What `string_replace(s, t, r)` computes: the occurrences of `t`,
      found left to right without overlapping, replaced by `r`; text that
      was put in is not searched again. */
  function Replaced(s: string, t: string, r: string): string
    requires |t| > 0
    decreases |s|, 1
  {
    ReplacedFrom(s, t, r, Find(s, t, 0))
  }

  /** `Replaced`, given where the first occurrence is. */
  function ReplacedFrom(s: string, t: string, r: string, f: Option<nat>): string
    requires |t| > 0 && (f.Some? ==> f.value + |t| <= |s|)
    decreases |s|, 0
  {
    if f.None? then s else s[..f.value] + r + Replaced(s[f.value + |t|..], t, r)
  }

  /** One step of `Replaced`: up to the first occurrence, the replacement,
      and the rest replaced. */
  lemma ReplacedStep(x: string, t: string, r: string, i: nat)
    requires |t| > 0 && Find(x, t, 0) == Some(i)
    ensures Replaced(x, t, r) == x[..i] + r + Replaced(x[i + |t|..], t, r)
  {
  }

  /** One round of `string_replace`'s loop, with the text split into the
      part already processed and the rest: replacing the first occurrence in
      the rest moves it, and the replacement, to the processed part, and
      the next search starts where the rest now begins. */
  lemma ReplaceRound(done: string, rest: string, t: string, r: string, i: nat)
    requires i + |t| <= |rest|
    ensures var ret := done + rest;
      ret[..|done| + i] + r + ret[|done| + i + |t|..] == (done + rest[..i] + r) + rest[i + |t|..]
  {
    var ret := done + rest;
    assert ret[..|done| + i] == done + rest[..i];
    assert ret[|done| + i + |t|..] == rest[i + |t|..];
  }

  /** The same round seen on the result: the replaced part grows by the
      text before the occurrence and the replacement. */
  lemma ReplaceRoundResult(done: string, rest: string, t: string, r: string, i: nat)
    requires |t| > 0 && Find(rest, t, 0) == Some(i)
    ensures done + Replaced(rest, t, r) == (done + rest[..i] + r) + Replaced(rest[i + |t|..], t, r)
  {
    ReplacedStep(rest, t, r, i);
    Regroup(done, rest[..i], r, Replaced(rest[i + |t|..], t, r));
  }

  lemma Regroup(a: string, b: string, c: string, d: string)
    ensures a + (b + c + d) == (a + b + c) + d
  {
  }

  /** `string_replace`: a loop of `find` and `replace` that resumes the
      search after the replacement text. */
  method StringReplace(s: string, t: string, r: string) returns (ret: string)
    requires |t| > 0
    ensures ret == Replaced(s, t, r)
  {
    ret := s;
    var pos := Find(ret, t, 0);
    ghost var done: string := [];
    ghost var rest := s;
    while pos.Some?
      invariant ret == done + rest
      invariant Replaced(s, t, r) == done + Replaced(rest, t, r)
      invariant pos == Shift(Find(rest, t, 0), |done|)
      decreases |rest|
    {
      ghost var i := pos.value - |done|;
      ghost var done', rest' := done + rest[..i] + r, rest[i + |t|..];
      ReplaceRound(done, rest, t, r, i);
      ReplaceRoundResult(done, rest, t, r, i);
      FindShift(done', rest', t, 0);
      ret := ret[..pos.value] + r + ret[pos.value + |t|..];
      assert ret == done' + rest' && |done'| == pos.value + |r|;
      pos := Find(ret, t, pos.value + |r|);
      done, rest := done', rest';
    }
  }

  /** A string in which `t` does not occur comes back unchanged. */
  lemma ReplacedAbsent(s: string, t: string, r: string)
    requires |t| > 0 && forall j :: !At(s, t, j)
    ensures Replaced(s, t, r) == s
  {
    assert Find(s, t, 0).None?;
  }

  /** When `t` does not start `s`, the first character is kept. */
  lemma ReplacedCons(s: string, t: string, r: string)
    requires |t| > 0 && |s| > 0 && !At(s, t, 0)
    ensures Replaced(s, t, r) == [s[0]] + Replaced(s[1..], t, r)
  {
    var x := s[1..];
    assert s == [s[0]] + x;
    FindShift([s[0]], x, t, 0);
    assert Find(s, t, 0) == Find(s, t, 1);
    match Find(x, t, 0)
    case None =>
    case Some(i) =>
      ReplacedStep(s, t, r, i + 1);
      ReplacedStep(x, t, r, i);
      assert s[..i + 1] == [s[0]] + x[..i];
      assert s[i + 1 + |t|..] == x[i + |t|..];
  }

  /** Replacing a single character is a character-by-character map. */
  function MapChar(s: string, c: char, r: string): string {
    if s == [] then [] else (if s[0] == c then r else [s[0]]) + MapChar(s[1..], c, r)
  }

  lemma {:induction false} ReplacedChar(s: string, c: char, r: string)
    ensures Replaced(s, [c], r) == MapChar(s, c, r)
  {
    if s != [] {
      ReplacedChar(s[1..], c, r);
      if s[0] == c {
        assert At(s, [c], 0);
      } else {
        ReplacedCons(s, [c], r);
      }
    }
  }

  lemma {:induction false} MapCharAppend(a: string, b: string, c: char, r: string)
    ensures MapChar(a + b, c, r) == MapChar(a, c, r) + MapChar(b, c, r)
  {
    if a == [] {
      assert a + b == b;
    } else {
      assert (a + b)[0] == a[0] && (a + b)[1..] == a[1..] + b;
      MapCharAppend(a[1..], b, c, r);
    }
  }

  // ---------------------------------------------------------------------
  // operator<<

  /** One character as the serialiser writes it. */
  function EscapeChar(c: char): string {
    if c == '!' then "!!" else if c == '=' then "!=" else [c]
  }

  /** A key or value as the serialiser writes it: `!` replaced by `!!`,
      then `=` by `!=`. */
  function Escape(s: string): string {
    Replaced(Replaced(s, "!", "!!"), "=", "!=")
  }

  /** Escaping works character by character. */
  lemma {:induction false} EscapeEach(s: string)
    ensures Escape(s) == if s == [] then [] else EscapeChar(s[0]) + Escape(s[1..])
  {
    ReplacedChar(s, '!', "!!");
    var m := MapChar(s, '!', "!!");
    ReplacedChar(m, '=', "!=");
    if s != [] {
      ReplacedChar(s[1..], '!', "!!");
      ReplacedChar(MapChar(s[1..], '!', "!!"), '=', "!=");
      var h: string := if s[0] == '!' then "!!" else [s[0]];
      MapCharAppend(h, MapChar(s[1..], '!', "!!"), '=', "!=");
      assert MapChar("!!", '=', "!=") == "!!" by {
        assert "!!"[1..] == "!";
        assert "!"[1..] == [];
      }
      assert MapChar([s[0]], '=', "!=") == if s[0] == '=' then "!=" else [s[0]] by {
        assert [s[0]][1..] == [];
      }
    }
  }

  /** In an escaped key or value every `=` follows a `!`, so the only
      unescaped `=` of a serialised line is the separator. */
  lemma {:induction false} EscapedEquals(s: string)
    ensures var e := Escape(s); forall i :: 0 <= i < |e| && e[i] == '=' ==> i > 0 && e[i - 1] == '!'
  {
    EscapeEach(s);
    if s != [] {
      EscapedEquals(s[1..]);
      var h := EscapeChar(s[0]);
      var e := Escape(s);
      forall i | 0 <= i < |e| && e[i] == '=' ensures i > 0 && e[i - 1] == '!' {
        if i >= |h| {
          assert e[i] == Escape(s[1..])[i - |h|];
        }
      }
    }
  }

  /** A string without `!` and `=` is written as it is. */
  lemma {:induction false} EscapePlain(s: string)
    requires '!' !in s && '=' !in s
    ensures Escape(s) == s
  {
    EscapeEach(s);
    if s != [] {
      assert s[0] in s;
      assert forall c :: c in s[1..] ==> c in s;
      EscapePlain(s[1..]);
      assert s == [s[0]] + s[1..];
    }
  }

  /** The first and last lines of a serialised record. */
  const OpenLine: string := "{\n"
  const CloseLine: string := "}\n"

  /** The line the serialiser writes for one attribute. */
  function Line(e: Entry<string, string>): string {
    EntryLine(e) + "\n"
  }

  /** The same line without its line end. */
  function EntryLine(e: Entry<string, string>): string {
    Escape(e.key) + "=" + Escape(e.value)
  }

  function Lines(a: Attrs): string {
    if a == [] then [] else Line(a[0]) + Lines(a[1..])
  }

  /** The text `operator<<` writes for a record. */
  function Serialised(a: Attrs): string {
    OpenLine + Lines(a) + CloseLine
  }

  /** The two `string_replace` calls `operator<<` makes on a key or value. */
  method EscapeText(s: string) returns (e: string)
    ensures e == Escape(s)
  {
    e := StringReplace(s, "!", "!!");
    e := StringReplace(e, "=", "!=");
  }

  /** `operator<<`: the `{` line, one escaped `key=value` line per attribute
      in key order, and the `}` line. */
  method Serialise(a: Attrs) returns (out: string)
    ensures out == Serialised(a)
  {
    out := OpenLine;
    var i := 0;
    assert a[0..] == a;
    while i < |a|
      invariant i <= |a| && out + Lines(a[i..]) + CloseLine == Serialised(a)
    {
      assert a[i..][1..] == a[i + 1..];
      var k := EscapeText(a[i].key);
      var v := EscapeText(a[i].value);
      out := out + (k + "=" + v + "\n");
      i := i + 1;
    }
    assert a[|a|..] == [];
    out := out + CloseLine;
  }

  // ---------------------------------------------------------------------
  // operator>>

  /** `std::string::npos`, the largest `std::size_t`. */
  const NPOS: nat := 0xFFFF_FFFF_FFFF_FFFF

  /** Lines whose positions all fit below `npos`. */
  predicate Fits(lines: seq<string>) {
    forall i :: 0 <= i < |lines| ==> |lines[i]| < NPOS
  }

  /** `p - 1` and `p + 1` in `std::size_t` arithmetic, which wraps around
      modulo 2^64. */
  function Dec(p: nat): nat
    requires p <= NPOS
  {
    if p == 0 then NPOS else p - 1
  }

  function Inc(p: nat): nat
    requires p <= NPOS
  {
    if p == NPOS then 0 else p + 1
  }

  /** A `find` result as a `std::size_t`. */
  function Npos(r: Option<nat>): (p: nat)
    requires r.Some? ==> r.value < NPOS
    ensures p <= NPOS
  {
    if r.None? then NPOS else r.value
  }

  /** `s.substr(pos, n)`, for a `pos` that is not past the end. */
  function Substr(s: string, pos: nat, n: nat): string
    requires pos <= |s|
  {
    if pos + n <= |s| then s[pos..pos + n] else s[pos..]
  }

  /** Where the loop of `operator>>` leaves `p`: the first `=`, unless the
      first `!=` sits right before it (or, by wrap-around, the line starts
      with `=` and holds no `!=`), in which case the next `=`; the loop never
      runs a second time. `NPOS` when there is none. */
  function Separator(s: string): (p: nat)
    requires |s| < NPOS
    ensures p < |s| || p == NPOS
  {
    var p := Npos(Find(s, "=", 0));
    var pp := Npos(Find(s, "!=", 0));
    if pp == Dec(p) then Npos(Find(s, "=", Inc(p))) else p
  }

  /** The key and value `operator>>` takes from one line, each no longer
      than the line. */
  function ParseLine(line: string): (kv: (string, string))
    requires |line| < NPOS
    ensures |kv.0| <= |line| && |kv.1| <= |line|
  {
    ReplacedShorter(line, "!!", "!");
    var s := Replaced(line, "!!", "!");
    var p := Separator(s);
    ReplacedShorter(Substr(s, 0, p), "!=", "=");
    ReplacedShorter(Substr(s, Inc(p), |s|), "!=", "=");
    (Replaced(Substr(s, 0, p), "!=", "="), Replaced(Substr(s, Inc(p), |s|), "!=", "="))
  }

  lemma {:induction false} ReplacedShorter(s: string, t: string, r: string)
    requires 0 < |t| && |r| <= |t|
    ensures |Replaced(s, t, r)| <= |s|
    decreases |s|
  {
    match Find(s, t, 0)
    case None =>
    case Some(i) => ReplacedShorter(s[i + |t|..], t, r);
  }

  /** The body of `operator>>`'s loop for a line that is neither `{` nor
      `}`: unescape `!!`, locate the separator, split and unescape `!=`. */
  method SplitLine(line: string) returns (key: string, val: string)
    requires |line| < NPOS
    ensures (key, val) == ParseLine(line)
  {
    var s := StringReplace(line, "!!", "!");
    ReplacedShorter(line, "!!", "!");
    var p := Npos(Find(s, "=", 0));
    var pp := Npos(Find(s, "!=", 0));
    ghost var first := true;
    while pp == Dec(p)
      invariant p < |s| || p == NPOS
      invariant pp < |s| || pp == NPOS
      invariant first ==> p == Npos(Find(s, "=", 0)) && pp == Npos(Find(s, "!=", 0))
      invariant !first ==> p == Separator(s) && pp != Dec(p)
      decreases first
    {
      p := Npos(Find(s, "=", Inc(p)));
      pp := Npos(Find(s, "!=", Inc(p)));
      first := false;
    }
    key := StringReplace(Substr(s, 0, p), "!=", "=");
    val := StringReplace(Substr(s, Inc(p), |s|), "!=", "=");
  }

  /** A line without `!` whose first `=` is not its first character splits
      into the text before that `=` and the text after it. */
  lemma ParsePlain(line: string, i: nat)
    requires |line| < NPOS && '!' !in line
    requires 0 < i < |line| && line[i] == '=' && '=' !in line[..i]
    ensures ParseLine(line) == (line[..i], line[i + 1..])
  {
    assert forall j: nat :: !At(line, "!!", j);
    ReplacedAbsent(line, "!!", "!");
    assert forall j: nat :: j < i ==> !At(line, "=", j);
    assert At(line, "=", i);
    assert forall j: nat :: !At(line, "!=", j);
    assert Separator(line) == i;
    forall x: string | x == line[..i] || x == line[i + 1..] ensures Replaced(x, "!=", "=") == x {
      assert forall c :: c in x ==> c in line;
      assert forall j: nat :: !At(x, "!=", j);
      ReplacedAbsent(x, "!=", "=");
    }
  }

  // ---------------------------------------------------------------------
  // Round trip through the text form

  /** The lines `operator<<` writes for the attributes `a` and the closing
      `}`, without their line ends. */
  function ClosedLines(a: Attrs): seq<string> {
    if a == [] then ["}"] else [EntryLine(a[0])] + ClosedLines(a[1..])
  }

  function RecordLines(a: Attrs): seq<string> {
    ["{"] + ClosedLines(a)
  }

  /** Lines joined, each followed by a line end, as `std::getline` splits them. */
  function Joined(ls: seq<string>): string {
    if ls == [] then [] else ls[0] + "\n" + Joined(ls[1..])
  }

  lemma {:induction false} ClosedJoined(a: Attrs)
    ensures Joined(ClosedLines(a)) == Lines(a) + CloseLine
  {
    if a == [] {
      assert ClosedLines(a)[1..] == [];
    } else {
      ClosedJoined(a[1..]);
      assert ClosedLines(a)[1..] == ClosedLines(a[1..]);
    }
  }

  /** The text of a record is its lines, each ended by a line end. */
  lemma SerialisedLines(a: Attrs)
    ensures Serialised(a) == Joined(RecordLines(a))
  {
    ClosedJoined(a);
    assert RecordLines(a)[1..] == ClosedLines(a);
  }

  /** A key or value the text form carries unchanged: no `!` or `=`. */
  predicate Plain(s: string) {
    '!' !in s && '=' !in s
  }

  /** Attributes that survive `operator<<` followed by `operator>>`: plain
      keys that are not empty, plain values, and lines of a length a
      `std::size_t` can index. */
  predicate PlainAttrs(a: Attrs) {
    forall i :: 0 <= i < |a| ==>
      a[i].key != [] && Plain(a[i].key) && Plain(a[i].value) && |a[i].key| + |a[i].value| + 1 < NPOS
  }

  /** A plain line splits back into its key and value. */
  lemma PlainLine(k: string, v: string)
    requires k != [] && Plain(k) && Plain(v) && |k| + |v| + 1 < NPOS
    ensures var line := EntryLine(Entry(k, v));
      |line| < NPOS && line != "{" && line != "}" && ParseLine(line) == (k, v)
  {
    EscapePlain(k);
    EscapePlain(v);
    var line := k + "=" + v;
    assert line[|k|] == '=';
    assert line[..|k|] == k && line[|k| + 1..] == v;
    assert forall c :: c in line ==> c in k || c == '=' || c in v;
    assert '=' !in line[..|k|];
    ParsePlain(line, |k|);
  }

  /** The first attribute of a well-keyed sequence and the rest. */
  lemma HeadAttribute(b: Attrs)
    requires WellKeyed(b) && b != []
    ensures WellKeyed(b[1..]) && !HasAttribute(b[1..], b[0].key)
    ensures GetValue(b, b[0].key) == b[0].value
    ensures forall k :: HasAttribute(b, k) == (k == b[0].key || HasAttribute(b[1..], k))
    ensures forall k :: k != b[0].key ==> GetValue(b, k) == GetValue(b[1..], k)
  {
    StringOrder();
    var tail := b[1..];
    assert Keys(tail) == Keys(b)[1..];
    assert Keys(b)[0] == b[0].key;
    forall k | k != b[0].key ensures GetValue(b, k) == GetValue(tail, k) {
      if k in Keys(tail) {
        var j :| 0 <= j < |tail| && tail[j].key == k;
        assert Entry(k, GetValue(tail, k)) in tail;
        assert b[j + 1] == tail[j];
      }
    }
  }

  /** `operator>>` on a line that is neither `{` nor `}` sets one attribute
      and goes on with the next line. */
  lemma ReadStep(acc: Attrs, ls: seq<string>, k: string, v: string)
    requires WellKeyed(acc) && Fits(ls)
    requires ls != [] && ls[0] != "{" && ls[0] != "}" && ParseLine(ls[0]) == (k, v)
    ensures ReadLines(acc, ls) == ReadLines(Assign(acc, k, v), ls[1..])
  {
  }

  /** Reading the lines of plain attributes `b` over `acc`: every key of `b`
      takes its value from `b`, every other key keeps its value. */
  lemma {:induction false} ReadPlain(acc: Attrs, b: Attrs)
    requires WellKeyed(acc) && WellKeyed(b) && PlainAttrs(b) && Fits(ClosedLines(b))
    ensures var r := ReadLines(acc, ClosedLines(b));
      forall k :: HasAttribute(r, k) == (HasAttribute(acc, k) || HasAttribute(b, k))
        && GetValue(r, k) == if HasAttribute(b, k) then GetValue(b, k) else GetValue(acc, k)
    decreases |b|
  {
    var ls := ClosedLines(b);
    if b != [] {
      var e := b[0];
      var tail := b[1..];
      PlainLine(e.key, e.value);
      HeadAttribute(b);
      var acc' := Assign(acc, e.key, e.value);
      assert ls[1..] == ClosedLines(tail);
      ReadPlain(acc', tail);
      ReadStep(acc, ls, e.key, e.value);
      var r := ReadLines(acc, ls);
      forall k
        ensures HasAttribute(r, k) == (HasAttribute(acc, k) || HasAttribute(b, k))
        ensures GetValue(r, k) == if HasAttribute(b, k) then GetValue(b, k) else GetValue(acc, k)
      {
        if k != e.key {
          assert HasAttribute(acc', k) == HasAttribute(acc, k) && GetValue(acc', k) == GetValue(acc, k);
        }
      }
    }
  }

  /** The lines of plain attributes are short enough for `std::size_t`. */
  lemma {:induction false} PlainLinesFit(b: Attrs)
    requires PlainAttrs(b)
    ensures Fits(ClosedLines(b)) && Fits(RecordLines(b))
  {
    if b != [] {
      PlainLinesFit(b[1..]);
      PlainLine(b[0].key, b[0].value);
      assert ClosedLines(b)[1..] == ClosedLines(b[1..]);
    }
    assert RecordLines(b)[1..] == ClosedLines(b);
  }

  /** `operator<<` then `operator>>` into an empty record gives back the
      same attributes, for plain attributes. */
  lemma RoundTripPlain(a: Attrs)
    requires WellKeyed(a) && PlainAttrs(a)
    ensures Fits(RecordLines(a)) && Serialised(a) == Joined(RecordLines(a))
    ensures var r := ReadLines([], RecordLines(a));
      forall k :: HasAttribute(r, k) == HasAttribute(a, k) && GetValue(r, k) == GetValue(a, k)
  {
    SerialisedLines(a);
    PlainLinesFit(a);
    ReadPlain([], a);
    assert RecordLines(a)[1..] == ClosedLines(a);
  }

  /** A key ending in `!` does not survive: `{"a!": "b"}` is written as the
      line `a!!=b`, which reads back as `{"a=b": "a=b"}`, because `!!` is
      unescaped before the separator is looked for. */
  lemma BangKeyMisread()
    ensures EntryLine(Entry("a!", "b")) == "a!!=b"
    ensures ParseLine("a!!=b") == ("a=b", "a=b")
  {
    BangKeyWritten();
    BangKeyUnescaped();
    var s := "a!=b";
    assert !At(s, "=", 0) && !At(s, "=", 1) && At(s, "=", 2);
    assert Find(s, "=", 0) == Some(2);
    assert !At(s, "!=", 0) && At(s, "!=", 1);
    assert Find(s, "!=", 0) == Some(1);
    assert !At(s, "=", 3) && Find(s, "=", 3) == None;
    assert Separator(s) == NPOS;
    assert Substr(s, 0, NPOS) == s && Substr(s, Inc(NPOS), |s|) == s;
    BangKeyRejoined();
  }

  /** The last step of `operator>>` on `a!!=b`: `!=` becomes `=`. */
  lemma BangKeyRejoined()
    ensures Replaced("a!=b", "!=", "=") == "a=b"
  {
    var s := "a!=b";
    assert !At(s, "!=", 0) && At(s, "!=", 1);
    ReplacedStep(s, "!=", "=", 1);
    assert s[..1] == "a" && s[3..] == "b" && Find("b", "!=", 0) == None;
    assert Replaced("b", "!=", "=") == "b";
  }

  lemma BangKeyWritten()
    ensures EntryLine(Entry("a!", "b")) == "a!!=b"
  {
    EscapeEach("a!");
    EscapeEach("!");
    EscapeEach("b");
    EscapeEach("");
    assert "a!"[1..] == "!" && "!"[1..] == "" && "b"[1..] == "";
  }

  /** The first step of `operator>>` on `a!!=b`: `!!` becomes `!`. */
  lemma BangKeyUnescaped()
    ensures Replaced("a!!=b", "!!", "!") == "a!=b"
  {
    var line := "a!!=b";
    assert !At(line, "!!", 0) && At(line, "!!", 1);
    ReplacedStep(line, "!!", "!", 1);
    var rest := line[3..];
    assert rest == "=b" && !At(rest, "!!", 0);
    assert Find(rest, "!!", 0) == None;
  }

  /** The empty key does not survive: `{"": "b"}` is written as `=b`, whose
      separator at index 0 makes `p - 1` wrap around to `npos`, so the line
      reads back as `{"=b": "=b"}`. */
  lemma EmptyKeyMisread()
    ensures EntryLine(Entry("", "b")) == "=b"
    ensures ParseLine("=b") == ("=b", "=b")
  {
    EscapeEach("b");
    EscapeEach("");
    assert "b"[1..] == "";
    var s := "=b";
    assert !At(s, "!!", 0) && Find(s, "!!", 0) == None;
    assert Replaced(s, "!!", "!") == s;
    assert At(s, "=", 0) && Find(s, "=", 0) == Some(0);
    assert !At(s, "!=", 0) && Find(s, "!=", 0) == None;
    assert !At(s, "=", 1) && Find(s, "=", 1) == None;
    assert Separator(s) == NPOS;
    assert Substr(s, 0, NPOS) == s && Substr(s, Inc(NPOS), |s|) == s;
    assert Replaced(s, "!=", "=") == s;
  }

  /** A parser for the text form that reverses the escaping: `!` followed
      by a character stands for that character, and the first `=` that is
      not escaped ends the key. Returns the key and the text after the
      separator, if there is one. */
  function SplitEscaped(s: string): (string, Option<string>) {
    if s == [] then ([], None)
    else if s[0] == '!' && |s| >= 2 then
      var (k, rest) := SplitEscaped(s[2..]); ([s[1]] + k, rest)
    else if s[0] == '=' then ([], Some(s[1..]))
    else
      var (k, rest) := SplitEscaped(s[1..]); ([s[0]] + k, rest)
  }

  function Unescape(s: string): string {
    if s == [] then []
    else if s[0] == '!' && |s| >= 2 then [s[1]] + Unescape(s[2..])
    else [s[0]] + Unescape(s[1..])
  }

  /** The corrected line parser: the key up to the first unescaped `=` and
      the value after it, both unescaped; a line without a separator is a
      key with the empty value. */
  function ParseEscaped(line: string): (string, string) {
    var (k, rest) := SplitEscaped(line);
    (k, if rest.Some? then Unescape(rest.value) else "")
  }

  lemma {:induction false} SplitEscapedKey(k: string, w: string)
    ensures SplitEscaped(Escape(k) + "=" + w) == (k, Some(w))
  {
    EscapeEach(k);
    if k == [] {
      assert Escape(k) + "=" + w == "=" + w;
    } else {
      SplitEscapedKey(k[1..], w);
      var s := Escape(k) + "=" + w;
      var t := Escape(k[1..]) + "=" + w;
      assert [k[0]] + k[1..] == k;
      if k[0] == '!' || k[0] == '=' {
        assert s == ['!', k[0]] + t;
        assert s[2..] == t;
      } else {
        assert s == [k[0]] + t;
        assert s[1..] == t;
      }
    }
  }

  lemma {:induction false} UnescapeEscape(v: string)
    ensures Unescape(Escape(v)) == v
  {
    EscapeEach(v);
    if v != [] {
      UnescapeEscape(v[1..]);
      var s := Escape(v);
      assert [v[0]] + v[1..] == v;
      if v[0] == '!' || v[0] == '=' {
        assert s[2..] == Escape(v[1..]);
      } else {
        assert s[1..] == Escape(v[1..]);
      }
    }
  }

  /** With the corrected parser every attribute survives the text form. */
  lemma ParseEscapedRoundTrip(k: string, v: string)
    ensures ParseEscaped(Escape(k) + "=" + Escape(v)) == (k, v)
  {
    SplitEscapedKey(k, Escape(v));
    UnescapeEscape(v);
  }

  /** What reading `lines` into a record holding `a` leaves in it when each
      attribute line is split by the corrected parser. */
  ghost function ReadLinesEscaped(a: Attrs, lines: seq<string>): (r: Attrs)
    requires WellKeyed(a)
    ensures WellKeyed(r)
    decreases |lines|
  {
    if lines == [] || lines[0] == "}" then a
    else if lines[0] == "{" then ReadLinesEscaped(a, lines[1..])
    else
      var (k, v) := ParseEscaped(lines[0]);
      ReadLinesEscaped(Assign(a, k, v), lines[1..])
  }

  /** An attribute line holds the separator, so it is never `{` or `}`. */
  lemma EntryLineNotBrace(e: Entry<string, string>)
    ensures EntryLine(e) != "{" && EntryLine(e) != "}"
  {
    assert EntryLine(e)[|Escape(e.key)|] == '=';
  }

  /** Reading the lines of any attributes `b` over `acc` with the corrected
      parser: every key of `b` takes its value from `b`, every other key
      keeps its value. */
  lemma {:induction false} ReadEscaped(acc: Attrs, b: Attrs)
    requires WellKeyed(acc) && WellKeyed(b)
    ensures var r := ReadLinesEscaped(acc, ClosedLines(b));
      forall k :: HasAttribute(r, k) == (HasAttribute(acc, k) || HasAttribute(b, k))
        && GetValue(r, k) == if HasAttribute(b, k) then GetValue(b, k) else GetValue(acc, k)
    decreases |b|
  {
    var ls := ClosedLines(b);
    if b != [] {
      var e := b[0];
      var tail := b[1..];
      EntryLineNotBrace(e);
      ParseEscapedRoundTrip(e.key, e.value);
      HeadAttribute(b);
      var acc' := Assign(acc, e.key, e.value);
      assert ls[1..] == ClosedLines(tail);
      ReadEscaped(acc', tail);
      assert ReadLinesEscaped(acc, ls) == ReadLinesEscaped(acc', ls[1..]);
      var r := ReadLinesEscaped(acc, ls);
      forall k
        ensures HasAttribute(r, k) == (HasAttribute(acc, k) || HasAttribute(b, k))
        ensures GetValue(r, k) == if HasAttribute(b, k) then GetValue(b, k) else GetValue(acc, k)
      {
        if k != e.key {
          assert HasAttribute(acc', k) == HasAttribute(acc, k) && GetValue(acc', k) == GetValue(acc, k);
        }
      }
    }
  }

  /** With the corrected parser, `operator<<` then `operator>>` into an
      empty record gives back every record, whatever its keys and values. */
  lemma RoundTripEscaped(a: Attrs)
    requires WellKeyed(a)
    ensures Serialised(a) == Joined(RecordLines(a))
    ensures var r := ReadLinesEscaped([], RecordLines(a));
      forall k :: HasAttribute(r, k) == HasAttribute(a, k) && GetValue(r, k) == GetValue(a, k)
  {
    SerialisedLines(a);
    ReadEscaped([], a);
    assert RecordLines(a)[1..] == ClosedLines(a);
  }
}
