/** The question table and the `handle` of the create-question controller:
    one record is appended, carrying the title and content verbatim, the slug
    of the title and the authenticated caller as author. */
module Questions {
  import opened Common
  import Slug

  /** A stored question; `createdAt` is the creation time in milliseconds. */
  datatype Question = Question(
    id: string,
    title: string,
    slug: string,
    content: string,
    createdAt: int,
    authorId: string)

  /** The validated request body. */
  datatype CreateQuestionBody = CreateQuestionBody(title: string, content: string)

  /** Every stored slug is made of slug characters. */
  predicate SlugsWellFormed(questions: seq<Question>) {
    forall i :: 0 <= i < |questions| ==> Slug.IsSlug(questions[i].slug)
  }

  /** Stores the question for `user`. The identifier and the creation time are
      assigned by the database; here they are the arguments `id` and `now`. */
  function CreateQuestion(questions: seq<Question>, user: UserPayload, body: CreateQuestionBody,
                          id: string, now: int): (r: seq<Question>)
    ensures |r| == |questions| + 1
    ensures r[..|questions|] == questions
    ensures var q := r[|questions|];
            && q.title == body.title && q.content == body.content
            && q.slug == Slug.ConvertToSlug(body.title)
            && q.authorId == user.sub
            && q.id == id && q.createdAt == now
    ensures SlugsWellFormed(questions) ==> SlugsWellFormed(r)
  {
    var slug := Slug.ConvertToSlug(body.title);
    questions + [Question(id, body.title, slug, body.content, now, user.sub)]
  }

  /** The stored slug needs no further conversion. */
  lemma StoredSlugIsStable(questions: seq<Question>, user: UserPayload, body: CreateQuestionBody,
                           id: string, now: int)
    ensures var q := CreateQuestion(questions, user, body, id, now)[|questions|];
            Slug.ConvertToSlug(q.slug) == q.slug
  {
    Slug.SlugIdempotent(body.title);
  }
}
