/**
  The printer and the parser of mxml/mxml.c put together: a document is written and read again.
*/
module XmlDocument {
  import opened Options
  import opened XmlText
  import opened XmlTree
  import opened XmlParser
  import opened XmlRoundTrip
  import XmlReader
  import XmlWriter

  const MAX_LEVEL: nat := 300

  /** Not too deep, and every value short enough for the data buffer at its first size. */
  predicate Small(t: Node, level: nat, translate: bool)
    decreases t
  {
    && level <= MAX_LEVEL
    && (t.value.Some? ==> |Encoding(t.value.value, translate)| < DATA_SIZE - 10)
    && forall c <- t.children :: Small(c, level + 1, translate)
  }

  lemma {:induction false} EncodingLength(s: string, translate: bool)
    ensures |s| <= |Encoding(s, translate)| <= 6 * |s|
  {
    if s != "" {
      EncodingLength(s[1..], translate);
    }
  }

  lemma ShortFits(s: string, size: nat, translate: bool)
    requires |Encoding(s, translate)| < size - 10
    ensures Fits(s, size, translate) && |s| < size
  {
    EncodingLength(s, translate);
    if s != "" {
      var front, last := s[..|s| - 1], s[|s| - 1..];
      assert s == front + last;
      EncodingAppend(front, last, translate);
    }
  }

  /** For small ordinary trees no buffer of the printer is too small, whatever was written before. */
  lemma {:induction false} SmallPrintable(t: Node, level: nat, size: nat, translate: bool)
    requires Ordinary(t, translate) && Small(t, level, translate) && (size > 0 ==> size >= DATA_SIZE)
    ensures Printable(t, level, size, translate) && Storable(t, size)
    ensures SizeAfter(t, size) > 0 ==> SizeAfter(t, size) >= DATA_SIZE
    decreases t, 1
  {
    hide Encoding, Fits;
    EncodingLength(t.name, translate);
    ShortFits(t.name, LINE_SIZE, translate);
    forall a <- t.attributes
      ensures AttributeFits(a, translate) && AttributeStorable(a)
    {
      ShortFits(a.name, ATTRIBUTE_SIZE, translate);
      ShortFits(a.value, ATTRIBUTE_SIZE, translate);
    }
    if t.value.Some? {
      ShortFits(t.value.value, GrownTo(size, t.value.value), translate);
      ShortFits(t.value.value, DATA_SIZE, translate);
    }
    SmallPrintableAll(t.children, level + 1, SizeAfterValue(t.value, size), translate);
  }

  lemma {:induction false} SmallPrintableAll(ts: seq<Node>, level: nat, size: nat, translate: bool)
    requires forall t <- ts :: Ordinary(t, translate) && Small(t, level, translate)
    requires size > 0 ==> size >= DATA_SIZE
    ensures PrintableAll(ts, level, size, translate) && StorableAll(ts, size)
    ensures SizeAfterAll(ts, size) > 0 ==> SizeAfterAll(ts, size) >= DATA_SIZE
    decreases ts, 0
  {
    hide Ordinary, Small, Printable, Storable, SizeAfter;
    if ts != [] {
      SmallPrintable(ts[0], level, size, translate);
      SmallPrintableAll(ts[1..], level, SizeAfter(ts[0], size), translate);
    }
  }

  /**
    Writes the elements of a tree as a document and parses the text. Where no buffer is too small, the result is the
    header and those elements, less blank values in front of children, and the very elements exactly when there are
    no such values.
  */
  method WriteAndParse(tree: Node, date: Option<string>, dataSize: nat) returns (r: Result)
    requires dataSize > 0 ==> dataSize >= DATA_SIZE
    requires StorableAll(Elements(tree.children), dataSize)
    requires date.Some? ==> '-' !in date.value && '&' !in date.value
    ensures var elements := Elements(tree.children);
      PrintableAll(elements, 0, dataSize, true) && (forall t <- elements :: Ordinary(t, true)) ==>
        && r == ReadBack(date, NormalAll(elements))
        && (r == ReadBack(date, elements) <==> forall t <- elements :: NoBlankValue(t))
  {
    hide Ordinary, PrintableAll, StorableAll, NormalAll, NoBlankValue, HeaderNodes, Elements, DocumentText, Parse;
    var text, _ := XmlWriter.WriteTree(tree, date, dataSize);
    r := XmlReader.ParseBuffer(text);
    ghost var elements := Elements(tree.children);
    if PrintableAll(elements, 0, dataSize, true) && (forall t <- elements :: Ordinary(t, true)) {
      DocumentRead(elements, date, true);
      DocumentRoundTrip(elements, date, true);
    }
  }
}
