/**
 The human-readable form of a job (`Job.String`) and the shape of the lines
 `Job.Logf` writes. The owning engine is represented by its display string.
 */
module Display {
  import opened GoStrings

  /** The call form of a job: `owner.name(arg1, arg2, ...)`. */
  function Head(owner: string, name: string, args: seq<string>): string {
    owner + "." + name + "(" + Join(args, ", ") + ")"
  }

  /**
   `Job.String`: the call form, followed by ` = OK (0)` when the status is "0",
   by ` = ERR (status)` for any other non-empty status, and by nothing while the
   status is empty.
   */
  function Describe(owner: string, name: string, args: seq<string>, status: string): (s: string)
    ensures Head(owner, name, args) <= s
    ensures status == "" <==> s == Head(owner, name, args)
    ensures status == "0" ==> s == Head(owner, name, args) + " = OK (0)"
    ensures status != "" && status != "0" ==> s == Head(owner, name, args) + " = ERR (" + status + ")"
  {
    var head := Head(owner, name, args);
    if status == "" then head
    else head + " = " + (if status == "0" then "OK" else "ERR") + " (" + status + ")"
  }

  /**
   The description determines the status: two jobs with the same call form
   and the same description have the same status. (A job whose handler returned
   "" thus shows exactly like a job that has not run, since both have status "".)
   */
  lemma DescribeDeterminesStatus(owner: string, name: string, args: seq<string>, s1: string, s2: string)
    requires Describe(owner, name, args, s1) == Describe(owner, name, args, s2)
    ensures s1 == s2
  {
    var head := Head(owner, name, args);
    var d1, d2 := Describe(owner, name, args, s1), Describe(owner, name, args, s2);
    var t1, t2 := d1[|head|..], d2[|head|..];
    assert t1 == t2;
    if s1 != "" && s2 != "" && s1 != "0" && s2 != "0" {
      assert t1 == " = ERR (" + s1 + ")";
      assert t2 == " = ERR (" + s2 + ")";
      assert s1 == t1[8..|t1| - 1];
      assert s2 == t2[8..|t2| - 1];
    }
  }

  /**
   The line `Logf(format)` writes, before `fmt` expands `format`'s directives:
   `[description] `, then `format` without its trailing newlines, then exactly one newline.
   */
  function LogLine(description: string, format: string): (line: string)
    ensures "[" + description + "] " <= line
    ensures line[|line| - 1] == '\n' && line[|line| - 2] != '\n'
    ensures var body := line[|description| + 3..|line| - 1];
      body <= format && forall k :: |body| <= k < |format| ==> format[k] == '\n'
  {
    var prefix := "[" + description + "] ";
    var body := TrimRight(format, "\n");
    var line := prefix + body + "\n";
    assert line[|prefix|..|line| - 1] == body;
    assert line[|line| - 2] == if body == [] then ' ' else body[|body| - 1];
    line
  }

  /** Newlines appended to a format do not change the logged line. */
  lemma LogLineIgnoresTrailingNewlines(description: string, format: string, newlines: string)
    requires forall k :: 0 <= k < |newlines| ==> newlines[k] == '\n'
    ensures LogLine(description, format + newlines) == LogLine(description, format)
  {
    TrimRightPadding(format, newlines, "\n");
  }
}
