/**
 * Formatting of the catalog for the language model: one `|`-separated line
 * per book, and the search prompt that embeds those lines.
 */
module PromptTemplates {
  import opened Text
  import opened DataService

  /** `${bookId} | ${title} | ${author} | copies:${copies_available} | ${location}`. */
  function BookLine(b: Book): (r: string)
    ensures b.bookId <= r
    ensures |r| >= |b.location| && r[|r| - |b.location|..] == b.location
  {
    b.bookId + " | " + b.title + " | " + b.author + " | copies:" + IntToDecimal(b.copiesAvailable) + " | " + b.location
  }

  /** `books.map(BookLine)`. */
  function BookLines(books: seq<Book>): (r: seq<string>)
    ensures |r| == |books| && forall i :: 0 <= i < |books| ==> r[i] == BookLine(books[i])
  {
    seq(|books|, i requires 0 <= i < |books| => BookLine(books[i]))
  }

  /** `books.map(BookLine).join('\n')`. */
  function BooksSnippet(books: seq<Book>): (r: string)
    ensures books == [] ==> r == ""
  {
    Join(BookLines(books), '\n')
  }

  /** None of the text fields the line shows contains `c`. */
  predicate FieldsFree(b: Book, c: char) {
    c !in b.bookId && c !in b.title && c !in b.author && c !in b.location
  }

  /** The line regrouped around each of its four `|` separators, one column at a time from the right. */
  lemma BookLineRegrouped(b: Book)
    ensures var d := IntToDecimal(b.copiesAvailable);
      var line1 := b.bookId + " | " + b.title;
      var line2 := line1 + " | " + b.author;
      var line3 := line2 + " | copies:" + d;
      && line1 + " " == (b.bookId + " ") + ['|'] + (" " + b.title + " ")
      && line2 + " " == (line1 + " ") + ['|'] + (" " + b.author + " ")
      && line3 + " " == (line2 + " ") + ['|'] + (" copies:" + d + " ")
      && BookLine(b) == (line3 + " ") + ['|'] + (" " + b.location)
  {
    Regrouped(b.bookId, b.title, b.author, IntToDecimal(b.copiesAvailable), b.location);
  }

  /** `BookLineRegrouped` over the five shown strings. */
  lemma Regrouped(id: string, title: string, author: string, d: string, location: string)
    ensures var line1 := id + " | " + title;
      var line2 := line1 + " | " + author;
      var line3 := line2 + " | copies:" + d;
      && line1 + " " == (id + " ") + ['|'] + (" " + title + " ")
      && line2 + " " == (line1 + " ") + ['|'] + (" " + author + " ")
      && line3 + " " == (line2 + " ") + ['|'] + (" copies:" + d + " ")
      && line3 + " | " + location == (line3 + " ") + ['|'] + (" " + location)
  {
  }

  /**
   * With `|`-free fields, a line splits on `|` into exactly five columns,
   * in the order id, title, author, count, location, each padded by the
   * spaces around the separators.
   */
  lemma BookLineColumns(b: Book)
    requires FieldsFree(b, '|')
    ensures Split(BookLine(b), '|') ==
      [b.bookId + " ", " " + b.title + " ", " " + b.author + " ",
       " copies:" + IntToDecimal(b.copiesAvailable) + " ", " " + b.location]
  {
    var d := IntToDecimal(b.copiesAvailable);
    assert '|' !in d;
    var line1 := b.bookId + " | " + b.title;
    var line2 := line1 + " | " + b.author;
    var line3 := line2 + " | copies:" + d;
    BookLineRegrouped(b);
    SplitNoSeparator(b.bookId + " ", '|');
    SplitBeforeLast(b.bookId + " ", " " + b.title + " ", '|');
    SplitBeforeLast(line1 + " ", " " + b.author + " ", '|');
    SplitBeforeLast(line2 + " ", " copies:" + d + " ", '|');
    SplitBeforeLast(line3 + " ", " " + b.location, '|');
  }

  lemma BookLineNewlineFree(b: Book)
    requires FieldsFree(b, '\n')
    ensures '\n' !in BookLine(b)
  {
    assert '\n' !in IntToDecimal(b.copiesAvailable);
  }

  /**
   * For one or more books with newline-free fields, the snippet splits on
   * newlines into exactly one line per book, in catalog order.
   */
  lemma SnippetLines(books: seq<Book>)
    requires |books| >= 1
    requires forall i :: 0 <= i < |books| ==> FieldsFree(books[i], '\n')
    ensures Split(BooksSnippet(books), '\n') == BookLines(books)
    ensures |Split(BooksSnippet(books), '\n')| == |books|
  {
    var lines := BookLines(books);
    forall k | 0 <= k < |lines| ensures '\n' !in lines[k] {
      BookLineNewlineFree(books[k]);
    }
    SplitJoin(lines, '\n');
  }

  const PromptHeader := "\n\nAvailable books:\n"

  const SearchInstructions :=
    "\n\nAnswer concisely. If the user asks to reserve a specific book AND that book is available, "
    + "OUTPUT EXACTLY one single-line JSON object (no extra text) in this format:\n"
    + "{\"action\":\"reserve_book\",\"bookId\":\"<ID>\",\"title\":\"<Title>\"}\n"
    + "Otherwise reply with a natural-language answer."

  /**
   * The search prompt: `User: ` and the message verbatim, then the snippet
   * verbatim right after the `Available books:` header, then the fixed
   * instructions.
   */
  function BuildPromptForSearch(userMessage: string, booksSnippetText: string): (r: string)
    ensures |r| == 6 + |userMessage| + |PromptHeader| + |booksSnippetText| + |SearchInstructions|
    ensures var head := "User: " + userMessage + PromptHeader;
      && r[..6] == "User: "
      && r[6..6 + |userMessage|] == userMessage
      && r[6 + |userMessage|..|head|] == PromptHeader
      && r[|head|..|head| + |booksSnippetText|] == booksSnippetText
      && r[|head| + |booksSnippetText|..] == SearchInstructions
  {
    ConcatParts("User: ", userMessage, PromptHeader, booksSnippetText, SearchInstructions);
    "User: " + userMessage + PromptHeader + booksSnippetText + SearchInstructions
  }

  /** Where each of five concatenated parts sits in the result. */
  lemma ConcatParts(a: string, b: string, c: string, d: string, e: string)
    ensures var r := a + b + c + d + e;
      && |r| == |a| + |b| + |c| + |d| + |e|
      && r[..|a|] == a
      && r[|a|..|a| + |b|] == b
      && r[|a| + |b|..|a| + |b| + |c|] == c
      && r[|a| + |b| + |c|..|a| + |b| + |c| + |d|] == d
      && r[|a| + |b| + |c| + |d|..] == e
  {
    var r := a + b + c + d + e;
    assert r == (((a + b) + c) + d) + e;
  }

  /** The message and the snippet can be read back from the prompt once the message's length is known. */
  lemma PromptDeterminesParts(m1: string, s1: string, m2: string, s2: string)
    requires |m1| == |m2|
    requires BuildPromptForSearch(m1, s1) == BuildPromptForSearch(m2, s2)
    ensures m1 == m2 && s1 == s2
  {
    var p := BuildPromptForSearch(m1, s1);
    assert |p| == 6 + |m1| + |PromptHeader| + |s1| + |SearchInstructions|;
    assert |s1| == |s2|;
  }
}
