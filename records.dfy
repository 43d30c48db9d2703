/**
 The tracked record, the form values it is built from, the closed status
 enumeration and the sample data the page starts with.
 */
module Records {

  datatype Option<T> = None | Some(value: T)

  /** One job application, as stored in the `applications` array. */
  datatype Application = Application(
    id: int,
    company: string,
    title: string,
    status: string,
    date: string,
    link: string,
    notes: string)

  /** The values of the six form inputs (companyName, jobTitle, applicationStatus,
      applicationDate, jobLink, notes). */
  datatype Fields = Fields(
    company: string,
    title: string,
    status: string,
    date: string,
    link: string,
    notes: string)

  /** The object literal the submit and update handlers build from an id and the form. */
  function Build(id: int, f: Fields): Application {
    Application(id, f.company, f.title, f.status, f.date, f.link, f.notes)
  }

  /** The form values the edit handler copies out of a record. */
  function FieldsOf(a: Application): (f: Fields)
    ensures Build(a.id, f) == a
  {
    Fields(a.company, a.title, a.status, a.date, a.link, a.notes)
  }

  /** The five statuses of the chart, in the order of its labels. */
  const Statuses: seq<string> := ["Applied", "In Review", "Interview", "Offer", "Rejected"]

  /** The records shown when nothing is stored yet. */
  const SampleApplications: seq<Application> := [
    Application(1, "Tech Solutions Inc.", "Frontend Developer", "Applied", "2024-02-15",
                "https://example.com/job1", "Applied through company website"),
    Application(2, "Digital Innovations", "UX Designer", "Interview", "2024-02-10",
                "https://example.com/job2", "First interview scheduled for next week"),
    Application(3, "Software Corp", "Full Stack Developer", "Rejected", "2024-01-28",
                "https://example.com/job3", "Received rejection email"),
    Application(4, "Web Systems", "JavaScript Developer", "In Review", "2024-02-05",
                "https://example.com/job4", "HR confirmed application is under review"),
    Application(5, "Creative Tech", "UI Developer", "Offer", "2024-01-15",
                "https://example.com/job5", "Received offer letter, considering terms")
  ]
}
