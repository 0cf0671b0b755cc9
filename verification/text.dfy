/** String helpers shared by the controller and the batch orchestrator:
    how C strings are read back, and how report lines are joined. */
module Text {

  /** The NUL character that ends a C string. */
  const Nul: char := '\0'

  /** The part of `s` that a reader of a NUL-terminated buffer sees: everything
      before the first NUL. `ex.what()`, `snprintf("%s")` and
      `std::string::append(const char*)` all read a string this way. */
  function CString(s: string): string
  {
    if s == [] || s[0] == Nul then [] else [s[0]] + CString(s[1..])
  }

  /** The C string read back is a NUL-free prefix that stops only at a NUL
      or at the end. */
  lemma {:induction false} CStringSpec(s: string)
    ensures CString(s) <= s
    ensures Nul !in CString(s)
    ensures |CString(s)| < |s| ==> s[|CString(s)|] == Nul
  {
    if s != [] && s[0] != Nul {
      CStringSpec(s[1..]);
      assert CString(s) == [s[0]] + CString(s[1..]);
    }
  }

  /** A string without NUL reads back unchanged. */
  lemma CStringWithoutNul(s: string)
    requires Nul !in s
    ensures CString(s) == s
  {
    CStringSpec(s);
  }

  /** The lines joined by `sep`, with no separator after the last one. */
  function Join(lines: seq<string>, sep: string): string
  {
    if |lines| == 0 then []
    else if |lines| == 1 then lines[0]
    else lines[0] + sep + Join(lines[1..], sep)
  }

  /** Every line followed by a newline: what an accumulator that appends
      `line + "\n"` per line holds at the end. */
  function Terminated(lines: seq<string>): string
  {
    if lines == [] then [] else lines[0] + "\n" + Terminated(lines[1..])
  }

  /** Terminating each line is distributive over concatenation of line lists. */
  lemma {:induction false} TerminatedAppend(a: seq<string>, b: seq<string>)
    ensures Terminated(a + b) == Terminated(a) + Terminated(b)
  {
    if a == [] {
      assert a + b == b;
    } else {
      assert (a + b)[1..] == a[1..] + b;
      TerminatedAppend(a[1..], b);
    }
  }

  /** A non-empty list of terminated lines is the joined lines plus one final
      newline, so dropping the last character yields the join. */
  lemma {:induction false} TerminatedIsJoinPlusNewline(lines: seq<string>)
    requires lines != []
    ensures Terminated(lines) == Join(lines, "\n") + "\n"
    ensures Terminated(lines)[..|Terminated(lines)| - 1] == Join(lines, "\n")
  {
    if |lines| == 1 {
      assert lines[1..] == [];
    } else {
      TerminatedIsJoinPlusNewline(lines[1..]);
    }
    var t := Terminated(lines);
    assert t == Join(lines, "\n") + "\n";
    assert t[..|t| - 1] == Join(lines, "\n");
  }

  /** Terminated text is empty exactly when there are no lines. */
  lemma TerminatedEmpty(lines: seq<string>)
    ensures Terminated(lines) == [] <==> lines == []
  {
    if lines != [] {
      assert |Terminated(lines)| >= 1;
    }
  }
}
