// Cutting a text at a separator, as str::split does.
module Splitting {
  import opened Bytes

  type Text = seq<byte>

  // The pieces of a text between separators; one more than there are separators.
  function Split(text: Text, separator: byte): (parts: seq<Text>)
    ensures |parts| >= 1
  {
    if text == [] then [[]]
    else
      var rest := Split(text[1..], separator);
      if text[0] == separator then [[]] + rest else [[text[0]] + rest[0]] + rest[1..]
  }

  lemma {:induction false} SplitOfText(text: Text, separator: byte)
    requires separator !in text
    ensures Split(text, separator) == [text]
  {
    if text != [] {
      SplitOfText(text[1..], separator);
      assert text == [text[0]] + text[1..];
    }
  }

  lemma {:induction false} SplitFirst(a: Text, rest: Text, separator: byte)
    requires separator !in a
    ensures Split(a + [separator] + rest, separator) == [a] + Split(rest, separator)
  {
    var text := a + [separator] + rest;
    if a == [] {
      assert text == [separator] + rest && text[1..] == rest;
    } else {
      assert text[1..] == a[1..] + [separator] + rest;
      SplitFirst(a[1..], rest, separator);
      assert a == [a[0]] + a[1..];
    }
  }

  lemma SplitOfPair(a: Text, b: Text, separator: byte)
    requires separator !in a && separator !in b
    ensures Split(a + [separator] + b, separator) == [a, b]
  {
    SplitFirst(a, b, separator);
    SplitOfText(b, separator);
  }

  // Two pieces come from exactly one separator.
  lemma {:induction false} SplitInTwo(text: Text, separator: byte)
    requires |Split(text, separator)| == 2
    ensures var parts := Split(text, separator); text == parts[0] + [separator] + parts[1]
  {
    var rest := Split(text[1..], separator);
    if text[0] == separator {
      SplitInOne(text[1..], separator);
    } else {
      SplitInTwo(text[1..], separator);
      assert text == [text[0]] + text[1..];
    }
  }

  lemma {:induction false} SplitInOne(text: Text, separator: byte)
    requires |Split(text, separator)| == 1
    ensures Split(text, separator) == [text]
  {
    if text != [] {
      SplitInOne(text[1..], separator);
      assert text == [text[0]] + text[1..];
    }
  }
}
