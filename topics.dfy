/**
 * The topic record as the backend stores it and the client receives it
 * (backend/routes/syllabus.js creates it; the client's hooks and utilities
 * read it).
 */
module Topics {
  import opened Wrappers
  import Auth

  type TopicId = nat

  /** A moment in milliseconds since the epoch, as `Date.now()` gives it. */
  type Millis = int

  /**
   * One syllabus topic. `importance` and `status` are free strings: the
   * client compares them with the values below, and the schema that would
   * restrict them (models/Syllabus) is not part of this model.
   */
  datatype Topic = Topic(
    id: TopicId,
    userId: Auth.UserId,
    subject: string,
    topicName: string,
    importance: string,
    status: string,
    lastStudied: Option<Millis>)

  const Pending := "Pending"
  const InProgress := "In Progress"
  const Completed := "Completed"

  const High := "High"
  const Medium := "Medium"
  const Low := "Low"
}
