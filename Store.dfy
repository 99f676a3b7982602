/**
 * The `DataBlob` the reader fills. Its `addUser`, `addReview` and
 * `addJobPosting` are modelled as plain appends: no uniqueness check and no
 * reference check is assumed of them. src/database/JsonDataReader.java calls them
 * at lines 73, 93 and 98.
 */
module Store {
  import opened DataTypes

  class DataBlob {
    var users: seq<User>
    var reviews: seq<Review>
    var postings: seq<JobPosting>

    constructor ()
      ensures users == [] && reviews == [] && postings == []
    {
      users, reviews, postings := [], [], [];
    }

    method AddUser(u: User)
      modifies this
      ensures users == old(users) + [u]
      ensures reviews == old(reviews) && postings == old(postings)
    {
      users := users + [u];
    }

    method AddReview(r: Review)
      modifies this
      ensures reviews == old(reviews) + [r]
      ensures users == old(users) && postings == old(postings)
    {
      reviews := reviews + [r];
    }

    method AddJobPosting(p: JobPosting)
      modifies this
      ensures postings == old(postings) + [p]
      ensures users == old(users) && reviews == old(reviews)
    {
      postings := postings + [p];
    }
  }
}
