/**
 * The part of an input `stringstream` the interpreter depends on: its text,
 * the read position, and the end-of-file and failure flags, with `>>` into a
 * string and `getline` with a delimiter as functions from one state to the
 * next.
 */
module Streams {
  import opened Wrappers
  import opened Text

  datatype Stream = Stream(text: string, pos: nat, eof: bool, fail: bool) {

    /** `good()`: neither flag is set. */
    predicate Good() {
      !eof && !fail
    }

    /** A stream that reached end of file or failed has consumed all of its text. */
    predicate Valid() {
      pos <= |text| && (!Good() ==> pos == |text|)
    }

    /** The characters not read yet. */
    function Rest(): string
      requires Valid()
    {
      text[pos..]
    }
  }

  /** `stringstream ss(s)`. */
  function Open(s: string): (st: Stream)
    ensures st.Valid() && st.Good() && st.Rest() == s
  {
    Stream(s, 0, false, false)
  }

  /**
   * `ss >> word`. On a stream that is not good the sentry fails and sets the
   * failure flag. Otherwise leading whitespace is skipped; reaching the end
   * sets both flags and extracts nothing; else the maximal run of
   * non-whitespace is extracted, and end of file is set when it runs to the
   * end of the text.
   */
  function Extract(st: Stream): (r: (Stream, Option<string>))
    requires st.Valid()
    ensures r.0.Valid() && r.0.text == st.text
  {
    if !st.Good() then
      (Stream(st.text, st.pos, st.eof, true), None)
    else
      var rest := st.text[st.pos..];
      var n := LeadingSpace(rest);
      if n == |rest| then
        (Stream(st.text, |st.text|, true, true), None)
      else
        var k := n + WordLength(rest[n..]);
        (Stream(st.text, st.pos + k, k == |rest|, false), Some(rest[n..k]))
  }

  /** Where `>>` stops, in terms of the unread text. */
  lemma ExtractStops(st: Stream)
    requires st.Valid()
    ensures Extract(st).0.Rest() == DropWord(st.Rest())
    ensures Extract(st).1 == if LeadingSpace(st.Rest()) == |st.Rest()| then None else Some(FirstWord(st.Rest()))
  {
    var rest := st.Rest();
    if st.Good() {
      var n := LeadingSpace(rest);
      if n < |rest| {
        var k := n + WordLength(rest[n..]);
        assert st.text[st.pos + k..] == rest[k..];
      }
    }
  }

  /**
   * `>>` reads the next word of the unread text, if there is one, and leaves
   * the words after it; when there is none it leaves the stream failed.
   */
  lemma ExtractReadsWord(st: Stream)
    requires st.Valid()
    ensures var ws := Words(st.Rest());
      && Extract(st).1 == (if ws == [] then None else Some(ws[0]))
      && Words(Extract(st).0.Rest()) == (if ws == [] then [] else ws[1..])
      && (ws == [] ==> !Extract(st).0.Good())
      && (ws != [] ==> |Extract(st).0.Rest()| < |st.Rest()|)
  {
    ExtractStops(st);
    WordsStep(st.Rest());
  }

  /**
   * `getline(ss, value, delim)`. On a stream that is not good the sentry fails.
   * A read at the end of the text extracts nothing and sets both flags.
   * Otherwise characters are taken up to the next `delim`, which is consumed
   * and not stored, or up to the end of the text, which sets end of file.
   */
  function Getline(st: Stream, delim: char): (r: (Stream, Option<string>))
    requires st.Valid()
    ensures r.0.Valid() && r.0.text == st.text
  {
    if !st.Good() then
      (Stream(st.text, st.pos, st.eof, true), None)
    else if st.pos == |st.text| then
      (Stream(st.text, st.pos, true, true), None)
    else
      var i := st.pos + Find(st.text[st.pos..], delim);
      if i == |st.text| then
        (Stream(st.text, i, true, false), Some(st.text[st.pos..]))
      else
        (Stream(st.text, i + 1, false, false), Some(st.text[st.pos..i]))
  }

  /** Where `getline` stops, in terms of the unread text. */
  lemma GetlineStops(st: Stream, delim: char)
    requires st.Valid()
    ensures var rest := st.Rest();
      var f := Find(rest, delim);
      && Getline(st, delim).1 == (if rest == [] then None else Some(rest[..f]))
      && Getline(st, delim).0.Rest() == (if f < |rest| then rest[f + 1..] else [])
  {
    var rest := st.Rest();
    if st.Good() && st.pos < |st.text| {
      var f := Find(rest, delim);
      assert st.text[st.pos..st.pos + f] == rest[..f];
      if f < |rest| {
        assert st.text[st.pos + f + 1..] == rest[f + 1..];
      } else {
        assert rest[..f] == rest;
      }
    }
  }

  /**
   * `getline` reads the next field of the unread text, if there is one, and
   * leaves the fields after it.
   */
  lemma GetlineReadsField(st: Stream, delim: char)
    requires st.Valid()
    ensures var fs := GetlineSplit(st.Rest(), delim);
      && Getline(st, delim).1 == (if fs == [] then None else Some(fs[0]))
      && GetlineSplit(Getline(st, delim).0.Rest(), delim) == (if fs == [] then [] else fs[1..])
      && (fs != [] ==> |Getline(st, delim).0.Rest()| < |st.Rest()|)
  {
    GetlineStops(st, delim);
    var rest := st.Rest();
    if rest != [] {
      SplitStep(rest, delim);
      var f := Find(rest, delim);
      if f == |rest| {
        assert rest[..f] == rest;
      }
    }
  }
}
