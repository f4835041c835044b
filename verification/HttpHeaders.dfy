/** The server's own header table. */
module HttpHeaders {
  import opened Headers

  function NameOf(f: Field): string {
    match f
    case ContentLength => "Content-Length: "
    case ContentType => "Content-Type: "
    case UserAgent => "User-Agent: "
    case IfModifiedSince => "If-Modified-Since: "
    case Authorization => "Authorization: "
    case Referer => "Referer: "
    case Cookie => "Cookie: "
    case Location => "Location: "
    case Status => "Status: "
    case Range => "Range: "
    case Connection => "Connection: "
    case TransferEncoding => "Transfer-Encoding: "
  }

  function KindOf(f: Field): Kind {
    match f
    case ContentLength => IntKind
    case Status => IntKind
    case IfModifiedSince => DateKind
    case _ => StringKind
  }

  function Entry(f: Field): Header {
    Header(KindOf(f), f, NameOf(f))
  }

  const FIELDS: seq<Field> :=
    [ContentLength, ContentType, UserAgent, IfModifiedSince, Authorization, Referer,
     Cookie, Location, Status, Range, Connection, TransferEncoding]

  /** The table, in the order it is searched. */
  function HttpTable(): (table: seq<Header>)
    ensures |table| == |FIELDS| && forall i | 0 <= i < |table| :: table[i] == Entry(FIELDS[i])
  {
    seq(|FIELDS|, i requires 0 <= i < |FIELDS| => Entry(FIELDS[i]))
  }

  function Initial(f: Field): char {
    match f
    case ContentLength => 'c'
    case ContentType => 'c'
    case UserAgent => 'u'
    case IfModifiedSince => 'i'
    case Authorization => 'a'
    case Referer => 'r'
    case Cookie => 'c'
    case Location => 'l'
    case Status => 's'
    case Range => 'r'
    case Connection => 'c'
    case TransferEncoding => 't'
  }

  lemma LongNameIsValid(f: Field)
    requires f == IfModifiedSince || f == TransferEncoding || f == ContentLength || f == Authorization
    ensures ValidName(NameOf(f))
  {
    match f
    case IfModifiedSince =>
      assert NoFeedFrom("If-Modified-Since: ", 5) by {
        assert NoFeedFrom("If-Modified-Since: ", 10) by {
          assert NoFeedFrom("If-Modified-Since: ", 15);
        }
      }
    case TransferEncoding =>
      assert NoFeedFrom("Transfer-Encoding: ", 5) by {
        assert NoFeedFrom("Transfer-Encoding: ", 10) by {
          assert NoFeedFrom("Transfer-Encoding: ", 15);
        }
      }
    case ContentLength =>
      assert NoFeedFrom("Content-Length: ", 5) by {
        assert NoFeedFrom("Content-Length: ", 10);
      }
    case Authorization =>
      assert NoFeedFrom("Authorization: ", 5) by {
        assert NoFeedFrom("Authorization: ", 10);
      }
  }

  lemma ShortNameIsValid(f: Field)
    requires f != IfModifiedSince && f != TransferEncoding && f != ContentLength && f != Authorization
    ensures ValidName(NameOf(f))
  {
    match f
    case ContentType => assert NoFeedFrom("Content-Type: ", 7);
    case UserAgent => assert NoFeedFrom("User-Agent: ", 6);
    case Connection => assert NoFeedFrom("Connection: ", 6);
    case Location => assert NoFeedFrom("Location: ", 5);
    case Referer => assert NoFeedFrom("Referer: ", 4);
    case Cookie => assert NoFeedFrom("Cookie: ", 4);
    case Status => assert NoFeedFrom("Status: ", 4);
    case Range => assert NoFeedFrom("Range: ", 3);
  }

  lemma NameIsValid(f: Field)
    ensures ValidName(NameOf(f)) && Lower(NameOf(f)[0]) == Initial(f)
  {
    match f
    case IfModifiedSince => LongNameIsValid(f);
    case TransferEncoding => LongNameIsValid(f);
    case ContentLength => LongNameIsValid(f);
    case Authorization => LongNameIsValid(f);
    case _ => ShortNameIsValid(f);
  }

  lemma DistinctInitials(a: string, b: string)
    requires a != [] && b != [] && Lower(a[0]) != Lower(b[0])
    ensures Distinct(a, b)
  {}

  lemma {:induction false} DifferSymmetric(a: string, b: string, k: nat)
    requires DifferFrom(a, b, k)
    ensures DifferFrom(b, a, k)
    decreases |a| - k
  {
    if Lower(a[k]) == Lower(b[k]) {
      DifferSymmetric(a, b, k + 1);
    }
  }

  /** The names that begin with the same letter differ later on. */
  lemma SameInitial(f: Field, g: Field)
    requires f != g && Initial(f) == Initial(g)
    ensures Distinct(NameOf(f), NameOf(g)) || Distinct(NameOf(g), NameOf(f))
  {
    assert Distinct("Content-Length: ", "Content-Type: ");
    assert Distinct("Content-Length: ", "Cookie: ");
    assert Distinct("Content-Length: ", "Connection: ");
    assert Distinct("Content-Type: ", "Cookie: ");
    assert Distinct("Content-Type: ", "Connection: ");
    assert Distinct("Referer: ", "Range: ");
    assert Distinct("Cookie: ", "Connection: ");
  }

  /** The server's names cannot be mistaken for one another: the laws of the parser hold. */
  lemma HttpTableValid()
    ensures ValidTable(HttpTable())
  {
    forall i | 0 <= i < |FIELDS| ensures ValidName(HttpTable()[i].name) {
      NameIsValid(FIELDS[i]);
    }
    forall i, j | 0 <= i < j < |FIELDS|
      ensures HttpTable()[i].field != HttpTable()[j].field && Distinct(HttpTable()[i].name, HttpTable()[j].name)
    {
      NamesDiffer(FIELDS[i], FIELDS[j]);
    }
  }

  lemma NamesDiffer(f: Field, g: Field)
    requires f != g
    ensures Distinct(NameOf(f), NameOf(g))
  {
    NameIsValid(f);
    NameIsValid(g);
    if Initial(f) != Initial(g) {
      DistinctInitials(NameOf(f), NameOf(g));
    } else {
      SameInitial(f, g);
      if Distinct(NameOf(g), NameOf(f)) {
        DifferSymmetric(NameOf(g), NameOf(f), 0);
      }
    }
  }

  /** The table, entry by entry. */
  lemma HttpTableIs()
    ensures HttpTable() == [
      Header(IntKind, ContentLength, "Content-Length: "),
      Header(StringKind, ContentType, "Content-Type: "),
      Header(StringKind, UserAgent, "User-Agent: "),
      Header(DateKind, IfModifiedSince, "If-Modified-Since: "),
      Header(StringKind, Authorization, "Authorization: "),
      Header(StringKind, Referer, "Referer: "),
      Header(StringKind, Cookie, "Cookie: "),
      Header(StringKind, Location, "Location: "),
      Header(IntKind, Status, "Status: "),
      Header(StringKind, Range, "Range: "),
      Header(StringKind, Connection, "Connection: "),
      Header(StringKind, TransferEncoding, "Transfer-Encoding: ")]
  {}
}
