/** `date_time` of tools.py: which of four formats the reply uses. The clock
    and `strftime` are not modelled: the formatting is the parameter
    `strftime`, applied to the chosen pattern. */
module DateTime {
  import opened Text

  datatype DateFormat = DateAndTime | DateOnly | TimeOnly | Now

  /** The `strftime` pattern of each format. */
  function Pattern(f: DateFormat): string {
    match f
    case DateAndTime => "Date and Time: %d/%m/%Y %H:%M:%S"
    case DateOnly => "Date: %d/%m/%Y"
    case TimeOnly => "Time: %H:%M:%S"
    case Now => "Now: %d/%m/%Y %H:%M:%S"
  }

  /** The format for a query: the lower-cased, stripped query is searched for
      "date" and "time". Stripping never changes the choice. */
  function SelectFormat(query: string): (f: DateFormat)
    ensures f == DateAndTime <==> Contains(Lower(query), "date") && Contains(Lower(query), "time")
    ensures f == DateOnly <==> Contains(Lower(query), "date") && !Contains(Lower(query), "time")
    ensures f == TimeOnly <==> !Contains(Lower(query), "date") && Contains(Lower(query), "time")
    ensures f == Now <==> !Contains(Lower(query), "date") && !Contains(Lower(query), "time")
  {
    var q := Strip(Lower(query));
    StripKeeps(Lower(query));
    if Contains(q, "date") && Contains(q, "time") then DateAndTime
    else if Contains(q, "date") then DateOnly
    else if Contains(q, "time") then TimeOnly
    else Now
  }

  lemma StripKeeps(s: string)
    ensures Contains(Strip(s), "date") == Contains(s, "date")
    ensures Contains(Strip(s), "time") == Contains(s, "time")
  {
    var d, t := "date", "time";
    assert NoSpace(d) by {
      assert d[0] == 'd' && d[1] == 'a' && d[2] == 't' && d[3] == 'e';
    }
    assert NoSpace(t) by {
      assert t[0] == 't' && t[1] == 'i' && t[2] == 'm' && t[3] == 'e';
    }
    ContainsStrip(s, d);
    ContainsStrip(s, t);
  }

  /** `date_time(query)`. */
  function DateTimeReply(query: string, strftime: string -> string): string {
    strftime(Pattern(SelectFormat(query)))
  }

  /** The query is read without regard to case. */
  lemma CaseBlind(q1: string, q2: string)
    requires Lower(q1) == Lower(q2)
    ensures SelectFormat(q1) == SelectFormat(q2)
  {
  }

  /** The queries the tool's description lists select the formats their
      words name. */
  lemma DateQuery()
    ensures SelectFormat("date") == DateOnly
  {
    LowerOfLower("date");
    ContainsAt("date", "date", 0);
    MissingChar("date", "time", 'i');
  }

  lemma TimeQuery()
    ensures SelectFormat("time") == TimeOnly
  {
    LowerOfLower("time");
    ContainsAt("time", "time", 0);
    MissingChar("time", "date", 'd');
  }

  lemma DateAndTimeQuery()
    ensures SelectFormat("date and time") == DateAndTime
  {
    LowerOfLower("date and time");
    DateInQuery();
    TimeInQuery();
    BothWords("date and time");
  }

  lemma DateInQuery()
    ensures Contains("date and time", "date")
  {
    var q := "date and time";
    assert q[0..4] == "date";
    ContainsAt(q, "date", 0);
  }

  lemma TimeInQuery()
    ensures Contains("date and time", "time")
  {
    var q := "date and time";
    assert q[9..13] == "time";
    ContainsAt(q, "time", 9);
  }

  lemma BothWords(q: string)
    requires Contains(Lower(q), "date") && Contains(Lower(q), "time")
    ensures SelectFormat(q) == DateAndTime
  {
  }

  lemma LowerOfLower(s: string)
    requires forall i :: 0 <= i < |s| ==> !IsUpper(s[i])
    ensures Lower(s) == s
  {
  }
}
