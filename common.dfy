/** Pieces that the transmitter and the receiver script share: the Python
    exceptions the modelled code can end in, the device menu, the header
    line of the results file, ASCII upper-casing, the decimal rendering of
    `str(n)`, and the `line + "\r"` framing used when a line list is
    flushed to a file. */
module Common {

  /** A byte of a file or of the network stream. */
  newtype byte = b: int | 0 <= b < 256

  /** The Python exceptions that end the modelled code paths. */
  datatype PyError =
    | DeviceChoice      // the device menu got something other than 1, 2 or 3
    | FileType          // write_txt_file called with an unknown type
    | UnicodeEncode     // bytes(chunk, "ascii") met a non-ASCII character
    | IllegalIp         // the IP address failed the regular expression
    | IndexOutOfRange   // a list index out of range (or an unbound loop index)
    | NoneConcat        // str + None

  datatype Result<T> = Ok(value: T) | Raised(error: PyError)

  datatype Outcome = Done | Failed(error: PyError)

  datatype Option<T> = None | Some(value: T)

  /** Regrouping a concatenation. The solver does not regroup `+` on its
      own inside a large context; a call supplies the instance. */
  lemma {:induction false} AppendAssoc<T>(a: seq<T>, b: seq<T>, c: seq<T>)
    ensures (a + b) + c == a + (b + c)
  {
  }

  /** Concatenation of a list of strings, `"".join(ss)` (or of byte
      strings, `b"".join(ss)`). */
  function Flatten<T>(ss: seq<seq<T>>): (r: seq<T>)
  {
    if ss == [] then [] else ss[0] + Flatten(ss[1..])
  }

  lemma {:induction false} FlattenConcat<T>(a: seq<seq<T>>, b: seq<seq<T>>)
    ensures Flatten(a + b) == Flatten(a) + Flatten(b)
  {
    if a == [] {
      assert a + b == b;
    } else {
      assert (a + b)[1..] == a[1..] + b;
      FlattenConcat(a[1..], b);
    }
  }

  /** What write_txt_file appends for a list of lines: each line followed by
      a carriage return, in order. */
  function Frame(lines: seq<string>): (r: string)
  {
    if lines == [] then "" else Frame(lines[..|lines| - 1]) + lines[|lines| - 1] + "\r"
  }

  lemma {:induction false} FrameConcat(a: seq<string>, b: seq<string>)
    ensures Frame(a + b) == Frame(a) + Frame(b)
    decreases |b|
  {
    if b == [] {
      assert a + b == a;
    } else {
      var b' := b[..|b| - 1];
      assert (a + b)[..|a + b| - 1] == a + b';
      FrameConcat(a, b');
    }
  }

  /** The loop of write_txt_file: appends every line and a carriage return
      to the file's current contents (files are opened in append mode). */
  method AppendFramed(file: string, lines: seq<string>) returns (r: string)
    ensures r == file + Frame(lines)
  {
    r := file;
    var i := 0;
    while i < |lines|
      invariant 0 <= i <= |lines|
      invariant r == file + Frame(lines[..i])
    {
      assert lines[..i + 1][..i] == lines[..i];
      r := r + lines[i] + "\r";
      i := i + 1;
    }
    assert lines[..i] == lines;
  }

  /** Framing from the front: the first line comes out first. */
  lemma {:induction false} FrameCons(line: string, rest: seq<string>)
    ensures Frame([line] + rest) == line + "\r" + Frame(rest)
  {
    FrameConcat([line], rest);
    assert [line][..0] == [];
  }

  /** The device menu (1, 2 or 3); any other number raises. */
  function DeviceName(choice: int): (r: Result<string>)
    ensures r.Ok? <==> 1 <= choice <= 3
    ensures r.Raised? ==> r.error == DeviceChoice
  {
    if choice == 1 then Ok("Raspberry Pi 3B+")
    else if choice == 2 then Ok("Raspberry Pi 4B")
    else if choice == 3 then Ok("Jetson Nano 4GB")
    else Raised(DeviceChoice)
  }

  function UpperChar(c: char): (u: char)
  {
    if 'a' <= c <= 'z' then (c as int - 32) as char else c
  }

  /** `str.upper()` on ASCII letters: a-z become A-Z, everything else stays. */
  function Upper(s: string): (r: string)
    ensures |r| == |s|
    ensures forall i :: 0 <= i < |r| ==> !('a' <= r[i] <= 'z')
    ensures forall i :: 0 <= i < |s| && !('a' <= s[i] <= 'z') ==> r[i] == s[i]
    ensures forall i :: 0 <= i < |s| && 'a' <= s[i] <= 'z' ==> r[i] as int == s[i] as int - 32
  {
    seq(|s|, i requires 0 <= i < |s| => UpperChar(s[i]))
  }

  const HeaderLead := "----- RESULTS FROM THE "
  const HeaderTail := " SHA-1 RECEIVER SCRIPT -----\r"

  /** make_results_txt_header: the first line of either results file. It says
      "RECEIVER" on both sides. */
  function ResultsHeader(hwName: string): (r: string)
  {
    HeaderLead + Upper(hwName) + HeaderTail
  }

  /** The header carries the upper-cased device name between its fixed lead
      and tail, so two headers agree exactly when the upper-cased names do. */
  lemma {:induction false} HeaderDeterminesName(a: string, b: string)
    ensures ResultsHeader(a) == ResultsHeader(b) <==> Upper(a) == Upper(b)
  {
    var ha, hb := ResultsHeader(a), ResultsHeader(b);
    if ha == hb {
      assert |a| == |b|;
      assert Upper(a) == ha[|HeaderLead|..|ha| - |HeaderTail|];
      assert Upper(b) == hb[|HeaderLead|..|hb| - |HeaderTail|];
    }
  }

  /** The three headers the scripts can write. */
  lemma {:induction false} DeviceHeaders()
    ensures ResultsHeader(DeviceName(1).value) == HeaderLead + "RASPBERRY PI 3B+" + HeaderTail
    ensures ResultsHeader(DeviceName(2).value) == HeaderLead + "RASPBERRY PI 4B" + HeaderTail
    ensures ResultsHeader(DeviceName(3).value) == HeaderLead + "JETSON NANO 4GB" + HeaderTail
  {
    UpperOf("Raspberry Pi 3B+", "RASPBERRY PI 3B+");
    UpperOf("Raspberry Pi 4B", "RASPBERRY PI 4B");
    UpperOf("Jetson Nano 4GB", "JETSON NANO 4GB");
  }

  lemma {:induction false} UpperOf(s: string, t: string)
    requires |s| == |t| && forall i :: 0 <= i < |s| ==> UpperChar(s[i]) == t[i]
    ensures Upper(s) == t
  {
  }

  predicate IsDigit(c: char)
  {
    '0' <= c <= '9'
  }

  predicate AllDigits(s: string)
  {
    forall i :: 0 <= i < |s| ==> IsDigit(s[i])
  }

  function DigitChar(d: nat): (c: char)
    requires d < 10
    ensures IsDigit(c) && c as int - '0' as int == d
  {
    ('0' as int + d) as char
  }

  /** `str(n)` for a natural number: decimal digits, no leading zero. */
  function Decimal(n: nat): (r: string)
    ensures |r| >= 1 && AllDigits(r)
    ensures n > 0 ==> r[0] != '0'
  {
    if n < 10 then [DigitChar(n)] else Decimal(n / 10) + [DigitChar(n % 10)]
  }

  /** The number a string of decimal digits denotes (`int(s)`). */
  function DecimalValue(s: string): (v: nat)
    requires AllDigits(s)
  {
    if s == [] then 0
    else DecimalValue(s[..|s| - 1]) * 10 + (s[|s| - 1] as int - '0' as int)
  }

  lemma {:induction false} DecimalRoundTrip(n: nat)
    ensures DecimalValue(Decimal(n)) == n
  {
    if n >= 10 {
      var r := Decimal(n);
      assert r[..|r| - 1] == Decimal(n / 10);
      DecimalRoundTrip(n / 10);
    }
  }

  /** Distinct numbers print differently. */
  lemma {:induction false} DecimalInjective(m: nat, n: nat)
    ensures Decimal(m) == Decimal(n) ==> m == n
  {
    DecimalRoundTrip(m);
    DecimalRoundTrip(n);
  }

  function Min(a: int, b: int): (m: int)
  {
    if a < b then a else b
  }
}
