/**
 * The data model shared by the hook and the components: the stored-file
 * record, the closed subject enumeration, the sort keys, and the browser
 * file handed to the upload panel.
 */
module Types {

  /** The nine subjects a file can be tagged with; `Unsorted` is the fallback. */
  datatype Subject =
    | English | SocialScience | Science | Maths | Computer
    | Hindi | Sanskrit | Spanish | Unsorted

  /** The string value each subject has in the metadata and on the record. */
  function SubjectName(s: Subject): string {
    match s
    case English => "English"
    case SocialScience => "Social Science"
    case Science => "Science"
    case Maths => "Maths"
    case Computer => "Computer"
    case Hindi => "Hindi"
    case Sanskrit => "Sanskrit"
    case Spanish => "Spanish"
    case Unsorted => "Unsorted"
  }

  /** Distinct subjects are stored under distinct strings. */
  lemma SubjectNameInjective(a: Subject, b: Subject)
    requires SubjectName(a) == SubjectName(b)
    ensures a == b
  {
  }

  /** A subject tab: every subject, or the sentinel `All`. */
  datatype SubjectFilter = All | Only(subject: Subject)

  /** The four keys the file list can be sorted by. */
  datatype SortOption = ByName | ByDate | BySize | BySubject

  /**
   * One stored PDF as the catalog knows it. `subject` is a plain string:
   * nothing checks that it is one of the nine subjects. Timestamps are
   * milliseconds since the epoch.
   */
  datatype PDFFile = PDFFile(
    id: string,
    name: string,
    originalName: string,
    subject: string,
    size: nat,
    createdAt: int,
    updatedAt: int,
    filePath: string)

  /** A file picked in or dropped on the browser: its name and its MIME type. */
  datatype LocalFile = LocalFile(name: string, mimeType: string)

  /** The subject list, in the order the tabs and the drop-downs show it. */
  const Subjects: seq<Subject> :=
    [English, SocialScience, Science, Maths, Computer, Hindi, Sanskrit, Spanish, Unsorted]

  /** The list names every subject exactly once and ends with `Unsorted`. */
  lemma SubjectsComplete()
    ensures |Subjects| == 9 && Subjects[8] == Unsorted
    ensures forall s: Subject :: s in Subjects
    ensures forall i, j :: 0 <= i < j < |Subjects| ==> Subjects[i] != Subjects[j]
  {
    forall s: Subject ensures s in Subjects {
      match s
      case English => assert Subjects[0] == s;
      case SocialScience => assert Subjects[1] == s;
      case Science => assert Subjects[2] == s;
      case Maths => assert Subjects[3] == s;
      case Computer => assert Subjects[4] == s;
      case Hindi => assert Subjects[5] == s;
      case Sanskrit => assert Subjects[6] == s;
      case Spanish => assert Subjects[7] == s;
      case Unsorted => assert Subjects[8] == s;
    }
  }

  /** `x` is the stored string of one of the nine subjects. */
  predicate IsSubjectName(x: string) {
    exists s: Subject :: SubjectName(s) == x
  }
}
